/** The value `Fractional.to_f` gives a fraction text
    (lib/fractional.rb:26-43): the mixed branch, tried first, and the single
    branch. The source divides and adds in double precision; here the same
    operations are carried out exactly, and a zero denominator gives the
    non-finite result IEEE 754 division would. */
module FractionValue {
  import opened Wrappers
  import opened Numerals
  import opened Rationals
  import opened FractionText
  import opened FractionGrammar

  /** `n / d` as IEEE 754 division would give it, without rounding: the
      exact quotient when `d` is nonzero; otherwise an infinity of the
      sign of `n`, or no number at all when `n` is zero as well. */
  function Quotient(n: int, d: int): (r: Exact)
    ensures d != 0 ==> r.Finite? && Reduced(r.value) && SameValue(r.value, Rat(n, d))
    ensures d == 0 ==> (r == PosInf <==> n > 0) && (r == NegInf <==> n < 0) && (r == Undefined <==> n == 0)
  {
    if d == 0 then
      (if n > 0 then PosInf else if n < 0 then NegInf else Undefined)
    else if d < 0 then
      var q := Reduce(-n, -d);
      assert q.num * d == n * q.den by {
        assert q.num * -d == -n * q.den;
      }
      Finite(q)
    else
      Finite(Reduce(n, d))
  }

  /** Unary minus on a result. */
  function Negate(x: Exact): (r: Exact)
    ensures x.Finite? <==> r.Finite?
    ensures x.Finite? ==> r.value.den == x.value.den && r.value.num == -x.value.num
    ensures x.Undefined? ==> r.Undefined?
    ensures x.PosInf? <==> r.NegInf?
    ensures x.NegInf? <==> r.PosInf?
  {
    match x
    case Finite(q) => Finite(Rat(-q.num, q.den))
    case Undefined => Undefined
    case PosInf => NegInf
    case NegInf => PosInf
  }

  /** The mixed branch (lib/fractional.rb:32-34): `num / den` plus the
      magnitude of the whole part `w`, negated unless `w` is positive. */
  function MixedValue(w: int, num: nat, den: nat): (r: Exact)
    ensures den > 0 ==> r.Finite? && Reduced(r.value)
    ensures den > 0 ==> SameValue(r.value, Rat(Signed(w <= 0, Abs(w) * den + num), den))
    ensures den == 0 && num == 0 ==> r.Undefined?
    ensures den == 0 && num > 0 ==> (r.PosInf? <==> w > 0) && (r.NegInf? <==> w <= 0)
  {
    var m := Abs(w) * den + num;
    var magnitude := Quotient(m, den);
    if w > 0 then magnitude
    else
      NegatedValue(magnitude, m, den);
      Negate(magnitude)
  }

  /** Negating a reduced value of `n / d` gives a reduced value of
      `-n / d`. */
  lemma NegatedValue(x: Exact, n: int, d: int)
    requires d > 0 ==> x.Finite? && Reduced(x.value) && SameValue(x.value, Rat(n, d))
    ensures d > 0 ==> Negate(x).Finite? && Reduced(Negate(x).value)
    ensures d > 0 ==> SameValue(Negate(x).value, Rat(-n, d))
  {
    if d > 0 {
      var q := x.value;
      assert Abs(-q.num) == Abs(q.num);
      assert -q.num * d == -(q.num * d);
      assert -n * q.den == -(n * q.den);
    }
  }

  // ---------------------------------------------------------------------
  // `String#split` on a one-character separator

  /** The fields between occurrences of `c`. */
  function Split(s: string, c: char): (r: seq<string>)
    ensures |r| >= 1
    ensures forall i :: 0 <= i < |r| ==> c !in r[i]
    decreases |s|
  {
    if |s| == 0 then [""]
    else
      var rest := Split(s[1..], c);
      if s[0] == c then [""] + rest
      else [[s[0]] + rest[0]] + rest[1..]
  }

  /** Fields joined back with the separator between them. */
  function Join(r: seq<string>, c: char): string
    requires |r| >= 1
    decreases |r|
  {
    if |r| == 1 then r[0] else r[0] + ([c] + Join(r[1..], c))
  }

  /** Splitting loses nothing: joining the fields gives the text back. */
  lemma {:induction false} SplitJoin(s: string, c: char)
    ensures Join(Split(s, c), c) == s
    decreases |s|
  {
    if |s| > 0 {
      var rest := Split(s[1..], c);
      SplitJoin(s[1..], c);
      assert s == [s[0]] + s[1..];
      if s[0] != c {
        if |rest| > 1 {
          assert Join(rest, c) == rest[0] + ([c] + Join(rest[1..], c));
          assert ([s[0]] + rest[0]) + ([c] + Join(rest[1..], c)) == [s[0]] + Join(rest, c);
        }
      }
    }
  }

  /** A text without the separator is one field. */
  lemma {:induction false} SplitNone(a: string, c: char)
    requires c !in a
    ensures Split(a, c) == [a]
    decreases |a|
  {
    if |a| > 0 {
      assert a[0] != c;
      assert c !in a[1..];
      SplitNone(a[1..], c);
      assert [a[0]] + a[1..] == a;
    }
  }

  /** A separator after a field without one ends that field. */
  lemma {:induction false} SplitFirst(a: string, c: char, b: string)
    requires c !in a
    ensures Split(a + ([c] + b), c) == [a] + Split(b, c)
    decreases |a|
  {
    var s := a + ([c] + b);
    if |a| == 0 {
      assert s == [c] + b;
      assert s[1..] == b;
    } else {
      assert s[0] == a[0] && a[0] != c;
      assert s[1..] == a[1..] + ([c] + b);
      assert c !in a[1..];
      SplitFirst(a[1..], c, b);
      assert [a[0]] + a[1..] == a;
    }
  }

  lemma SplitOnce(a: string, c: char, b: string)
    requires c !in a && c !in b
    ensures Split(a + ([c] + b), c) == [a, b]
  {
    SplitFirst(a, c, b);
    SplitNone(b, c);
  }

  // ---------------------------------------------------------------------
  // `Fractional.to_f` on fraction texts

  /** The numerator field of a single fraction, as `split("/")` cuts it. */
  function NumeratorText(p: SingleText): string {
    p.lead + (Sign(p.neg) + p.tail.num)
  }

  /** The denominator field of a single fraction. */
  function DenominatorText(p: SingleText): string {
    p.tail.den + p.tail.trail
  }

  lemma SingleFields(p: SingleText)
    requires WellFormedSingle(p)
    ensures Split(SingleString(p), '/') == [NumeratorText(p), DenominatorText(p)]
  {
    var a, b := NumeratorText(p), DenominatorText(p);
    assert '/' !in a by {
      assert forall i :: 0 <= i < |a| ==> IsWs(a[i]) || a[i] == '-' || IsDigit(a[i]) by {
        forall i | 0 <= i < |a|
          ensures IsWs(a[i]) || a[i] == '-' || IsDigit(a[i])
        {
          if i >= |p.lead| + |Sign(p.neg)| {
            assert a[i] == p.tail.num[i - |p.lead| - |Sign(p.neg)|];
          } else if i >= |p.lead| {
            assert a[i] == Sign(p.neg)[i - |p.lead|];
          }
        }
      }
    }
    assert '/' !in b by {
      forall i | 0 <= i < |b|
        ensures IsWs(b[i]) || IsDigit(b[i])
      {
        if i >= |p.tail.den| {
          assert b[i] == p.tail.trail[i - |p.tail.den|];
        }
      }
    }
    assert SingleString(p) == a + ("/" + b);
    SplitOnce(a, '/', b);
  }

  /** `to_f` of a fraction text; `None` for every other text, whose reading
      (`String#to_f` on a decimal) is outside this model. */
  function ToF(s: string): (r: Option<Exact>)
    requires NoNewline(s)
    ensures r.Some? <==> IsFraction(s)
  {
    GuardsAreRedundant(s);
    if IsMixedFraction(s) then
      var m := ScanMixed(s).value;
      var whole := LeadingInt(Sign(m.neg) + m.whole);
      var num, den := LeadingInt(m.tail.num), LeadingInt(m.tail.den);
      WholeRead(m);
      Some(MixedValue(whole, num, den))
    else if IsSingleFraction(s) then
      var p := ScanSingle(s).value;
      SingleFields(p);
      var fields := Split(s, '/');
      Some(Quotient(LeadingInt(fields[0]), LeadingInt(fields[1])))
    else
      None
  }

  lemma WholeRead(m: MixedText)
    requires WellFormedMixed(m)
    ensures LeadingInt(Sign(m.neg) + m.whole) == Signed(m.neg, DigitsValue(m.whole))
    ensures LeadingInt(m.tail.num) == DigitsValue(m.tail.num)
    ensures LeadingInt(m.tail.den) == DigitsValue(m.tail.den)
  {
    LeadingIntOf("", m.neg, m.whole, "");
    assert "" + (Sign(m.neg) + (m.whole + "")) == Sign(m.neg) + m.whole;
    LeadingIntOf("", false, m.tail.num, "");
    assert "" + (Sign(false) + (m.tail.num + "")) == m.tail.num;
    LeadingIntOf("", false, m.tail.den, "");
    assert "" + (Sign(false) + (m.tail.den + "")) == m.tail.den;
  }

  // ---------------------------------------------------------------------
  // What `to_f` makes of each kind of fraction text

  /** The fields `split("/")` cuts from a single fraction read as its signed
      numerator and its denominator. */
  lemma SingleFieldsRead(p: SingleText)
    requires WellFormedSingle(p)
    ensures LeadingInt(NumeratorText(p)) == Signed(p.neg, DigitsValue(p.tail.num))
    ensures LeadingInt(DenominatorText(p)) == DigitsValue(p.tail.den)
  {
    LeadingIntOf(p.lead, p.neg, p.tail.num, "");
    assert p.tail.num + "" == p.tail.num;
    if |p.tail.trail| > 0 {
      assert IsWs(p.tail.trail[0]);
    }
    LeadingIntOf("", false, p.tail.den, p.tail.trail);
    assert "" + (Sign(false) + (p.tail.den + p.tail.trail)) == DenominatorText(p);
  }

  /** A single fraction that the mixed pattern does not also match (it has a
      minus sign or no leading whitespace) is its signed numerator over its
      denominator. */
  lemma SingleToF(p: SingleText)
    requires WellFormedSingle(p) && NoNewline(SingleString(p))
    requires |p.lead| == 0 || p.neg
    ensures ToF(SingleString(p)) == Some(Quotient(Signed(p.neg, DigitsValue(p.tail.num)), DigitsValue(p.tail.den)))
  {
    var s := SingleString(p);
    SingleAlsoMixed(p);
    ScanSingleComplete(p);
    GuardsAreRedundant(s);
    SingleFields(p);
    SingleFieldsRead(p);
  }

  /** A mixed fraction is its fraction plus the magnitude of its whole part,
      negated unless the whole part is positive; leading whitespace, the
      separating run and trailing whitespace play no part. */
  lemma MixedToF(m: MixedText)
    requires WellFormedMixed(m) && NoNewline(MixedString(m))
    ensures ToF(MixedString(m))
         == Some(MixedValue(Signed(m.neg, DigitsValue(m.whole)), DigitsValue(m.tail.num), DigitsValue(m.tail.den)))
  {
    var s := MixedString(m);
    ScanMixedComplete(m);
    GuardsAreRedundant(s);
    WholeRead(ScanMixed(s).value);
  }

  /** With leading whitespace and no minus sign, a single fraction is read
      by the mixed branch with an empty whole part, which is not positive:
      `" 3/4"` comes out as `-3/4`. */
  lemma LeadingSpaceNegates(p: SingleText)
    requires WellFormedSingle(p) && NoNewline(SingleString(p))
    requires |p.lead| > 0 && !p.neg
    ensures ToF(SingleString(p)) == Some(Negate(Quotient(DigitsValue(p.tail.num), DigitsValue(p.tail.den))))
  {
    var q := EmptyWhole(p);
    MixedToF(q);
    EmptyWholeNegates(DigitsValue(p.tail.num), DigitsValue(p.tail.den));
  }

  /** The decomposition the mixed pattern finds in such a text: the last
      leading whitespace character separates an empty whole part. */
  function EmptyWhole(p: SingleText): (q: MixedText)
    requires WellFormedSingle(p) && |p.lead| > 0 && !p.neg
    ensures WellFormedMixed(q) && MixedString(q) == SingleString(p)
    ensures q.whole == "" && !q.neg && q.tail == p.tail
  {
    var q := MixedText(p.lead[..|p.lead| - 1], false, "", p.lead[|p.lead| - 1..], p.tail);
    SplitWs(p.lead, |p.lead| - 1);
    assert MixedString(q) == q.lead + (q.gap + TailString(p.tail));
    q
  }

  lemma EmptyWholeNegates(n: nat, d: nat)
    ensures MixedValue(0, n, d) == Negate(Quotient(n, d))
  {
  }

  /** Only the signs and digits of a mixed fraction decide its value, so
      `"6 5/8"` and `"6  5/8"` read alike. */
  lemma MixedWhitespaceInvariant(m: MixedText, m': MixedText)
    requires WellFormedMixed(m) && NoNewline(MixedString(m))
    requires WellFormedMixed(m') && NoNewline(MixedString(m'))
    requires m.neg == m'.neg && m.whole == m'.whole
    requires m.tail.num == m'.tail.num && m.tail.den == m'.tail.den
    ensures ToF(MixedString(m)) == ToF(MixedString(m'))
  {
    MixedToF(m);
    MixedToF(m');
  }

  // ---------------------------------------------------------------------
  // The values the tests expect (spec/fractional_class_methods_spec.rb:3-37)

  /** A quotient is the reduced rational of its value. */
  lemma QuotientIs(n: int, d: int, q: Rat)
    requires d > 0 && Reduced(q) && SameValue(q, Rat(n, d))
    ensures Quotient(n, d) == Finite(q)
  {
    ReducedUnique(Quotient(n, d).value, q);
  }

  /** `SingleToF` for a nonzero denominator, with the reduced value named. */
  lemma SingleToFIs(p: SingleText, q: Rat)
    requires WellFormedSingle(p) && NoNewline(SingleString(p))
    requires |p.lead| == 0 || p.neg
    requires DigitsValue(p.tail.den) > 0 && Reduced(q)
    requires SameValue(q, Rat(Signed(p.neg, DigitsValue(p.tail.num)), DigitsValue(p.tail.den)))
    ensures ToF(SingleString(p)) == Some(Finite(q))
  {
    SingleToF(p);
    QuotientIs(Signed(p.neg, DigitsValue(p.tail.num)), DigitsValue(p.tail.den), q);
  }

  /** The mixed value of a nonzero denominator, with the reduced value
      named. */
  lemma MixedValueIs(w: int, n: nat, d: nat, q: Rat)
    requires d > 0 && Reduced(q)
    requires SameValue(q, Rat(Signed(w <= 0, Abs(w) * d + n), d))
    ensures MixedValue(w, n, d) == Finite(q)
  {
    var v := MixedValue(w, n, d).value;
    SameValueTransitive(v, Rat(Signed(w <= 0, Abs(w) * d + n), d), q);
    ReducedUnique(v, q);
  }

  /** `MixedToF` with the parts and the reduced value named. */
  lemma MixedExample(m: MixedText, s: string, w: int, n: nat, d: nat, q: Rat)
    requires WellFormedMixed(m) && MixedString(m) == s && NoNewline(s)
    requires Signed(m.neg, DigitsValue(m.whole)) == w
    requires DigitsValue(m.tail.num) == n && DigitsValue(m.tail.den) == d
    requires d > 0 && Reduced(q) && SameValue(q, Rat(Signed(w <= 0, Abs(w) * d + n), d))
    ensures ToF(s) == Some(Finite(q))
  {
    MixedToF(m);
    MixedValueIs(w, n, d, q);
  }

  /** `"1/2"` reads as 1/2. */
  lemma HalfValue()
    ensures ToF("1/2") == Some(Finite(Rat(1, 2)))
  {
    var s := "1/2";
    var p := SingleText("", false, Tail("1", "2", ""));
    assert SingleString(p) == s;
    assert DigitsValue("1") == 1 && DigitsValue("2") == 2;
    SingleToFIs(p, Rat(1, 2));
  }

  /** `"-1/64"` reads as -1/64. */
  lemma NegativeSingleValue()
    ensures ToF("-1/64") == Some(Finite(Rat(-1, 64)))
  {
    var s := "-1/64";
    var p := SingleText("", true, Tail("1", "64", ""));
    assert SingleString(p) == s;
    assert DigitsValue("64") == 64 by {
      assert "64"[..1] == "6";
    }
    assert DigitsValue("1") == 1;
    SingleToFIs(p, Rat(-1, 64));
  }

  /** `"1 2/4"` reads as 3/2. */
  lemma MixedHalvesValue()
    ensures ToF("1 2/4") == Some(Finite(Rat(3, 2)))
  {
    var s := "1 2/4";
    var m := MixedText("", false, "1", " ", Tail("2", "4", ""));
    assert MixedString(m) == s;
    assert DigitsValue("1") == 1 && DigitsValue("2") == 2 && DigitsValue("4") == 4;
    MixedExample(m, s, 1, 2, 4, Rat(3, 2));
  }

  /** `"1100 7/8"` reads as 8807/8. */
  lemma MixedEighthsValue()
    ensures ToF("1100 7/8") == Some(Finite(Rat(8807, 8)))
  {
    var s := "1100 7/8";
    var m := MixedText("", false, "1100", " ", Tail("7", "8", ""));
    assert MixedString(m) == s;
    assert DigitsValue("1100") == 1100 by {
      assert "1100"[..3] == "110";
      assert "110"[..2] == "11";
      assert "11"[..1] == "1";
    }
    assert DigitsValue("7") == 7 && DigitsValue("8") == 8;
    MixedExample(m, s, 1100, 7, 8, Rat(8807, 8));
  }

  /** `"-10 1/2"` reads as -21/2. */
  lemma NegativeMixedValue()
    ensures ToF("-10 1/2") == Some(Finite(Rat(-21, 2)))
  {
    var s := "-10 1/2";
    var m := MixedText("", true, "10", " ", Tail("1", "2", ""));
    assert MixedString(m) == s;
    assert DigitsValue("10") == 10 by {
      assert "10"[..1] == "1";
    }
    assert DigitsValue("1") == 1 && DigitsValue("2") == 2;
    MixedExample(m, s, -10, 1, 2, Rat(-21, 2));
  }

  /** Repeated whitespace between the parts changes nothing. */
  lemma RepeatedSpaceValue()
    ensures ToF("6 5/8") == ToF("6  5/8")
  {
    var s, s' := "6 5/8", "6  5/8";
    var m := MixedText("", false, "6", " ", Tail("5", "8", ""));
    var m' := MixedText("", false, "6", "  ", Tail("5", "8", ""));
    assert MixedString(m) == s;
    assert MixedString(m') == s';
    MixedWhitespaceInvariant(m, m');
  }

  /** A leading space turns `"3/4"` negative. */
  lemma LeadingSpaceValue()
    ensures ToF(" 3/4") == Some(Finite(Rat(-3, 4)))
  {
    var s := " 3/4";
    var m := MixedText("", false, "", " ", Tail("3", "4", ""));
    assert MixedString(m) == s;
    assert DigitsValue("") == 0 && DigitsValue("3") == 3 && DigitsValue("4") == 4;
    MixedExample(m, s, 0, 3, 4, Rat(-3, 4));
  }

  /** A zero whole part is not positive either: `"0 1/2"` is `-1/2`. */
  lemma ZeroWholeValue()
    ensures ToF("0 1/2") == Some(Finite(Rat(-1, 2)))
  {
    var s := "0 1/2";
    var m := MixedText("", false, "0", " ", Tail("1", "2", ""));
    assert MixedString(m) == s;
    assert DigitsValue("0") == 0 && DigitsValue("1") == 1 && DigitsValue("2") == 2;
    MixedExample(m, s, 0, 1, 2, Rat(-1, 2));
  }

}
