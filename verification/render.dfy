/** `Fractional.to_s` (lib/fractional.rb:45-62) without the `:to_nearest`
    rounding: a number is written as a single fraction when its integer
    part is zero, as a bare integer when it has no fractional part, and as
    the integer part, one space and the fraction of the remainder
    otherwise.

    The source works on a `Float`. Its truncation and `value -
    value.truncate` are exact in double precision (the fractional part of
    a double is itself a double), and the fraction text is written from
    `float_to_rational`, so the rendering is stated here on a rational;
    `ToS` supplies the rational `float_to_rational` gives a bit pattern as
    written, which is the double's exact value except on the nonzero
    subnormals, where it is a quarter of it. */
module Render {
  import opened Wrappers
  import opened Numerals
  import opened Rationals
  import opened FractionText
  import opened FractionGrammar
  import opened FractionShape
  import opened FractionValue
  import opened Float64

  /** `value - value.truncate` (lib/fractional.rb:91-93): what is left
      after the integer part, smaller than one in magnitude and of the same
      sign as the number. */
  function FractionalPart(q: Rat): (r: Rat)
    requires q.den > 0
    ensures r.den == q.den
    ensures q.num == Trunc(q) * q.den + r.num
    ensures Abs(r.num) < r.den
    ensures r.num > 0 ==> q.num > 0
    ensures r.num < 0 ==> q.num < 0
  {
    var w := Trunc(q);
    var r := Rat(q.num - w * q.den, q.den);
    FractionalPartBounds(q.num, q.den, w);
    r
  }

  lemma FractionalPartBounds(n: int, d: int, w: int)
    requires d > 0
    requires Abs(w) * d <= Abs(n) < (Abs(w) + 1) * d
    requires w > 0 ==> n > 0
    requires w < 0 ==> n < 0
    ensures Abs(n - w * d) < d
    ensures n - w * d > 0 ==> n > 0
    ensures n - w * d < 0 ==> n < 0
  {
    MulSign(d, w);
    MulSign(d, -w);
    assert (Abs(w) + 1) * d == Abs(w) * d + d;
    if n < 0 {
      assert Abs(w) * d == -(w * d) by {
        if w < 0 {
          assert Abs(w) == -w;
        } else {
          assert w == 0;
        }
      }
    } else if w > 0 {
      assert Abs(w) * d == w * d;
    }
  }

  /** `t` writes `q` as a fraction in lowest terms. */
  ghost predicate ShowsFraction(t: string, q: Rat) {
    exists k, n, d: nat :: FractionAt(t, k, n, d) && Reduced(Rat(n, d)) && SameValue(Rat(n, d), q)
  }

  /** `t` writes the numeral of the whole part `w` before position `k`, a
      space at `k`, and the fraction `p` in lowest terms after it. */
  ghost predicate WholeAndPart(t: string, k: int, w: int, p: Rat) {
    && 0 < k < |t| && t[k] == ' '
    && IsNumeral(t[..k], w) && ShowsFraction(t[k + 1..], p)
  }

  /** `fractional_part_to_string` without rounding
      (lib/fractional.rb:95-101): `float_to_rational(value).to_s`, the
      number written as a fraction in lowest terms. */
  function PartString(q: Rat): (r: string)
    requires q.den > 0
    ensures ShowsFraction(r, q) && ' ' !in r
  {
    var p := Reduce(q.num, q.den);
    var r := RatToString(p);
    assert exists k :: FractionAt(r, k, p.num, p.den);
    r
  }

  /** `Fractional.to_s(value)` on the exact value of `value`: a single
      fraction when the integer part is zero, a bare integer when there is
      no fractional part, and otherwise the integer part, a space and the
      magnitude of the fractional part. */
  function RenderRational(q: Rat): (r: string)
    requires q.den > 0
    ensures Trunc(q) == 0 ==> ' ' !in r && ShowsFraction(r, q)
    ensures Trunc(q) != 0 && FractionalPart(q).num == 0 ==>
      IsNumeral(r, Trunc(q)) && LeadingInt(r) == Trunc(q)
    ensures var part := FractionalPart(q);
      Trunc(q) != 0 && part.num != 0 ==> exists k :: WholeAndPart(r, k, Trunc(q), Rat(Abs(part.num), part.den))
  {
    var whole := Trunc(q);
    if whole == 0 then
      PartString(q)
    else
      var part := FractionalPart(q);
      if part.num == 0 then
        IntToString(whole)
      else
        var fp := PartString(Rat(Abs(part.num), part.den));
        if fp == "1" || fp == "0" then
          IntToString(whole + LeadingInt(fp))
        else
          MixedShape(whole, fp, Rat(Abs(part.num), part.den));
          IntToString(whole) + " " + fp
  }

  /** A whole part, a space and a fraction text. */
  lemma MixedShape(w: int, fp: string, p: Rat)
    requires ShowsFraction(fp, p)
    ensures WholeAndPart(IntToString(w) + " " + fp, |IntToString(w)|, w, p)
  {
    SpaceAt(IntToString(w), fp);
  }

  lemma SpaceAt(a: string, b: string)
    ensures var t := a + " " + b; t[..|a|] == a && t[|a|] == ' ' && t[|a| + 1..] == b
  {
  }

  /** `PartString` writes the only text that shows `q` as a fraction in
      lowest terms. */
  lemma PartStringUnique(t: string, q: Rat)
    requires q.den > 0 && ShowsFraction(t, q)
    ensures t == PartString(q)
  {
    var k, n, d: nat :| FractionAt(t, k, n, d) && Reduced(Rat(n, d)) && SameValue(Rat(n, d), q);
    var p := Reduce(q.num, q.den);
    SameValueTransitive(Rat(n, d), q, p);
    ReducedUnique(Rat(n, d), p);
    FractionTextUnique(t, k, n, d);
  }

  /** `RenderRational` writes the only text of the shape `to_s` gives `q`:
      any text that meets the three shapes of its contract is that text. */
  lemma RenderUnique(q: Rat, t: string)
    requires q.den > 0
    requires Trunc(q) == 0 ==> ShowsFraction(t, q)
    requires Trunc(q) != 0 && FractionalPart(q).num == 0 ==> IsNumeral(t, Trunc(q))
    requires var part := FractionalPart(q);
      Trunc(q) != 0 && part.num != 0 ==> exists k :: WholeAndPart(t, k, Trunc(q), Rat(Abs(part.num), part.den))
    ensures t == RenderRational(q)
  {
    var w, part := Trunc(q), FractionalPart(q);
    if w == 0 {
      PartStringUnique(t, q);
    } else if part.num == 0 {
      NumeralUnique(t, w);
    } else {
      var p := Rat(Abs(part.num), part.den);
      var k :| WholeAndPart(t, k, w, p);
      NumeralUnique(t[..k], w);
      PartStringUnique(t[k + 1..], p);
      SpaceSplit(t, k);
      MergeBranchUnreachable(q);
    }
  }

  lemma SpaceSplit(t: string, k: int)
    requires 0 <= k < |t| && t[k] == ' '
    ensures t == t[..k] + " " + t[k + 1..]
  {
  }

  /** The branch that folds a fraction text of `"1"` or `"0"` into the whole
      number is never taken: the text of a fractional part always holds a
      slash, so a number with a fractional part is written as its whole
      part, a space and that text. */
  lemma MergeBranchUnreachable(q: Rat)
    requires q.den > 0 && Trunc(q) != 0 && FractionalPart(q).num != 0
    ensures var part := FractionalPart(q);
      var fp := PartString(Rat(Abs(part.num), part.den));
      && fp != "1" && fp != "0"
      && RenderRational(q) == IntToString(Trunc(q)) + " " + fp
  {
  }

  /** Why `Fractional.to_s` can fail. */
  datatype Error = FloatDomainError

  /** `Fractional.to_s` on the double with the given bit pattern: NaN and
      the infinities make `truncate` raise `FloatDomainError`; otherwise the
      number written is the value `float_to_rational` gives the double, as
      written (lib/fractional.rb:49, lib/fractional.rb:99). */
  function ToS(bits: nat): (r: Result<string, Error>)
    requires bits < Pow2(64)
    ensures r.Err? <==> Unpack(bits).exponent == 2047
    ensures r.Ok? ==> r.value == RenderRational(DecodeAsWritten(bits).value)
  {
    match DecodeAsWritten(bits)
    case Finite(q) => Ok(RenderRational(q))
    case _ => Err(FloatDomainError)
  }

  // ---------------------------------------------------------------------
  // The texts `to_s` writes, as the patterns of `to_f` see them

  lemma DigitsNoNewline(t: string)
    requires AllDigits(t)
    ensures NoNewline(t)
  {
  }

  /** `Rational#to_s` of `r` is a single fraction with no leading
      whitespace whose digits spell the numerator and denominator. */
  function RatText(r: Rat): (p: SingleText)
    requires r.den > 0
    ensures WellFormedSingle(p) && SingleString(p) == RatToString(r) && NoNewline(SingleString(p))
    ensures |p.lead| == 0 && (p.neg <==> r.num < 0)
    ensures DigitsValue(p.tail.num) == Abs(r.num) && DigitsValue(p.tail.den) == r.den
  {
    var p := SingleText("", r.num < 0, Tail(NatToString(Abs(r.num)), NatToString(r.den), ""));
    RatTextFacts(r, p);
    p
  }

  lemma RatTextFacts(r: Rat, p: SingleText)
    requires r.den > 0
    requires p == SingleText("", r.num < 0, Tail(NatToString(Abs(r.num)), NatToString(r.den), ""))
    ensures WellFormedSingle(p) && SingleString(p) == RatToString(r) && NoNewline(SingleString(p))
  {
    RatTextString(r, p);
    DigitsNoNewline(p.tail.num);
    DigitsNoNewline(p.tail.den);
  }

  lemma RatTextString(r: Rat, p: SingleText)
    requires r.den > 0
    requires p == SingleText("", r.num < 0, Tail(NatToString(Abs(r.num)), NatToString(r.den), ""))
    ensures SingleString(p) == RatToString(r)
  {
    SlashJoin(Sign(r.num < 0), p.tail.num, p.tail.den);
  }

  /** The nesting `SingleString` builds, regrouped as `RatToString` groups
      it. */
  lemma SlashJoin(sign: string, num: string, den: string)
    ensures "" + (sign + (num + ("/" + (den + "")))) == (sign + num) + ("/" + den)
  {
    assert den + "" == den;
  }

  /** `w.to_s + " " + f.to_s` for a nonzero `w` and a positive `f` is a
      mixed fraction with no leading whitespace. */
  function MixedTextOf(w: int, n: nat, d: nat): MixedText {
    MixedText("", w < 0, NatToString(Abs(w)), " ", Tail(NatToString(n), NatToString(d), ""))
  }

  lemma MixedTextFacts(w: int, n: nat, d: nat)
    requires w != 0
    ensures var m := MixedTextOf(w, n, d);
      && WellFormedMixed(m) && NoNewline(MixedString(m))
      && (m.neg <==> w < 0)
      && DigitsValue(m.whole) == Abs(w)
      && DigitsValue(m.tail.num) == n && DigitsValue(m.tail.den) == d
  {
    var m := MixedTextOf(w, n, d);
    DigitsNoNewline(m.whole);
    DigitsNoNewline(m.tail.num);
    DigitsNoNewline(m.tail.den);
  }

  lemma MixedTextString(w: int, n: nat, d: nat)
    requires d > 0 && n > 0
    ensures MixedString(MixedTextOf(w, n, d)) == IntToString(w) + " " + RatToString(Rat(n, d))
  {
    var m := MixedTextOf(w, n, d);
    SpaceJoin(Sign(w < 0), m.whole, m.tail.num, m.tail.den);
  }

  /** The nesting `MixedString` builds, regrouped as `to_s` joins its
      parts. */
  lemma SpaceJoin(sign: string, whole: string, num: string, den: string)
    ensures "" + (sign + (whole + (" " + (num + ("/" + (den + ""))))))
         == (sign + whole) + " " + (("" + num) + ("/" + den))
  {
    assert den + "" == den;
    assert "" + num == num;
  }

  // ---------------------------------------------------------------------
  // Reading back what `to_s` writes

  /** A number whose integer part is zero is written as a single fraction,
      which `to_f` reads back as the number. */
  lemma SingleRoundTrip(q: Rat)
    requires q.den > 0 && Trunc(q) == 0
    ensures NoNewline(RenderRational(q)) && IsSingleFraction(RenderRational(q))
    ensures ToF(RenderRational(q)) == Some(Finite(Reduce(q.num, q.den)))
  {
    var r := Reduce(q.num, q.den);
    var p := RatText(r);
    assert RenderRational(q) == SingleString(p);
    SingleAccepted(p);
    assert Signed(r.num < 0, Abs(r.num)) == r.num;
    SingleToFIs(p, r);
  }

  /** The magnitude of the fractional part in lowest terms. */
  function PartValue(q: Rat): (f: Rat)
    requires q.den > 0
    ensures Reduced(f)
  {
    var part := FractionalPart(q);
    Reduce(Abs(part.num), part.den)
  }

  /** A number with a nonzero integer part and a nonzero fractional part is
      written as a mixed fraction, which `to_f` reads back as the number:
      the sign of the whole part carries over to the fraction. */
  lemma MixedRoundTrip(q: Rat)
    requires q.den > 0 && Trunc(q) != 0 && FractionalPart(q).num != 0
    ensures NoNewline(RenderRational(q)) && IsMixedFraction(RenderRational(q))
    ensures ToF(RenderRational(q)) == Some(Finite(Reduce(q.num, q.den)))
  {
    var w, f := Trunc(q), PartValue(q);
    var m := MixedTextOf(w, f.num, f.den);
    MixedRendering(q);
    MixedReadBack(q);
    MixedReadsAs(m, RenderRational(q), w, f.num, f.den, Reduce(q.num, q.den));
  }

  /** A mixed text spelling `s` whose parts read as `w`, `n` and `d` is a
      mixed fraction that `to_f` reads as the mixed value. */
  lemma MixedReadsAs(m: MixedText, s: string, w: int, n: nat, d: nat, v: Rat)
    requires WellFormedMixed(m) && MixedString(m) == s && NoNewline(s)
    requires m.neg == (w < 0) && DigitsValue(m.whole) == Abs(w)
    requires DigitsValue(m.tail.num) == n && DigitsValue(m.tail.den) == d
    requires MixedValue(w, n, d) == Finite(v)
    ensures IsMixedFraction(s) && ToF(s) == Some(Finite(v))
  {
    MixedAccepted(m);
    MixedToF(m);
    assert Signed(w < 0, Abs(w)) == w;
  }

  lemma MixedRendering(q: Rat)
    requires q.den > 0 && Trunc(q) != 0 && FractionalPart(q).num != 0
    ensures var f := PartValue(q); var m := MixedTextOf(Trunc(q), f.num, f.den);
      && f.num > 0 && RenderRational(q) == MixedString(m)
      && WellFormedMixed(m) && NoNewline(MixedString(m))
      && m.neg == (Trunc(q) < 0)
      && DigitsValue(m.whole) == Abs(Trunc(q))
      && DigitsValue(m.tail.num) == f.num && DigitsValue(m.tail.den) == f.den
  {
    var w, part, f := Trunc(q), FractionalPart(q), PartValue(q);
    SameValueSign(f, Rat(Abs(part.num), part.den));
    MergeBranchUnreachable(q);
    assert PartString(Rat(Abs(part.num), part.den)) == RatToString(Rat(f.num, f.den));
    MixedTextFacts(w, f.num, f.den);
    MixedTextString(w, f.num, f.den);
  }

  lemma MixedReadBack(q: Rat)
    requires q.den > 0 && Trunc(q) != 0 && FractionalPart(q).num != 0
    ensures var f := PartValue(q); f.num >= 0 && MixedValue(Trunc(q), f.num, f.den) == Finite(Reduce(q.num, q.den))
  {
    var w, part, f := Trunc(q), FractionalPart(q), PartValue(q);
    SameValueSign(f, Rat(Abs(part.num), part.den));
    var x := Signed(w <= 0, Abs(w) * f.den + f.num);
    MixedParts(q, w, part, f, x);
    SameValueTransitive(Reduce(q.num, q.den), q, Rat(x, f.den));
    MixedValueIs(w, f.num, f.den, Reduce(q.num, q.den));
  }

  /** The whole part and the fraction a mixed rendering shows add up to the
      number. */
  lemma MixedParts(q: Rat, w: int, part: Rat, f: Rat, x: int)
    requires q.den > 0 && w == Trunc(q) && w != 0
    requires part == FractionalPart(q) && part.num != 0
    requires f.den > 0 && SameValue(f, Rat(Abs(part.num), part.den))
    requires x == Signed(w <= 0, Abs(w) * f.den + f.num)
    ensures SameValue(q, Rat(x, f.den))
  {
    var s := if w > 0 then 1 else -1;
    assert x == w * f.den + s * f.num;
    assert q.num == w * q.den + s * Abs(part.num);
    MixedCross(w, s, q.den, f.den, f.num, Abs(part.num));
  }

  lemma MixedCross(w: int, s: int, d: int, fd: int, fn: int, an: int)
    requires fn * d == an * fd
    ensures (w * fd + s * fn) * d == (w * d + s * an) * fd
  {
    assert (w * fd + s * fn) * d == w * fd * d + s * (fn * d);
    assert (w * d + s * an) * fd == w * d * fd + s * (an * fd);
  }

  /** A nonzero number without a fractional part is written as a bare
      integer, which `String#to_f` reads back as the number. */
  lemma IntegerRender(q: Rat)
    requires q.den > 0 && Trunc(q) != 0 && FractionalPart(q).num == 0
    ensures SameValue(q, Rat(LeadingInt(RenderRational(q)), 1))
  {
  }

  /** Every number but a nonzero integer comes back from `to_f` as itself,
      in lowest terms. */
  lemma RenderRoundTrip(q: Rat)
    requires q.den > 0 && (Trunc(q) == 0 || FractionalPart(q).num != 0)
    ensures NoNewline(RenderRational(q))
    ensures ToF(RenderRational(q)) == Some(Finite(Reduce(q.num, q.den)))
  {
    if Trunc(q) == 0 {
      SingleRoundTrip(q);
    } else {
      MixedRoundTrip(q);
    }
  }

  /** `to_s` of a finite double whose decoded value is not a nonzero
      integer is a text `to_f` reads back as that value. */
  lemma ToSRoundTrip(bits: nat)
    requires bits < Pow2(64) && Unpack(bits).exponent != 2047
    requires var v := DecodeAsWritten(bits).value; Trunc(v) == 0 || FractionalPart(v).num != 0
    ensures ToS(bits).Ok? && NoNewline(ToS(bits).value)
    ensures ToF(ToS(bits).value) == Some(DecodeAsWritten(bits))
  {
    var v := DecodeAsWritten(bits).value;
    RenderRoundTrip(v);
    ReducedUnique(Reduce(v.num, v.den), v);
  }

  /** Away from the nonzero subnormals, the double's IEEE 754 value is what
      `to_f` reads back from `to_s`. */
  lemma ToSRoundTripIeee(bits: nat)
    requires bits < Pow2(64)
    requires var x := Unpack(bits); x.exponent != 2047 && (x.exponent != 0 || x.fraction == 0)
    requires var v := Decode(bits).value; Trunc(v) == 0 || FractionalPart(v).num != 0
    ensures ToS(bits).Ok? && NoNewline(ToS(bits).value)
    ensures ToF(ToS(bits).value) == Some(Decode(bits))
    ensures SameValue(Decode(bits).value, IeeeValue(Unpack(bits)))
  {
    DecodersAgree(Unpack(bits));
    ToSRoundTrip(bits);
  }

  /** A nonzero subnormal double is written as a quarter of its value:
      `to_f` reads back a quarter of what IEEE 754 gives the double, and
      never the double itself. */
  lemma SubnormalWrittenQuarter(bits: nat)
    requires bits < Pow2(64) && Unpack(bits).exponent == 0 && Unpack(bits).fraction != 0
    ensures ToS(bits).Ok? && NoNewline(ToS(bits).value)
    ensures var v := Decode(bits).value; var t := ToF(ToS(bits).value);
      t.Some? && t.value.Finite? && SameValue(t.value.value, Rat(v.num, 4 * v.den))
    ensures ToF(ToS(bits).value) != Some(Decode(bits))
  {
    var x := Unpack(bits);
    var w, v, i := DecodeAsWritten(bits).value, Decode(bits).value, IeeeValue(x);
    Pow2Monotone(52, 1074);
    assert i == Rat(SignFactor(x.sign) * x.fraction, Pow2(1074));
    BelowOneTruncates(w, i.num, 4 * i.den);
    ToSRoundTrip(bits);
    QuarterSameValue(v, i);
    SameValueTransitive(w, Rat(i.num, 4 * i.den), Rat(v.num, 4 * v.den));
    DecodersAgree(x);
  }

  /** A number equal to a fraction smaller than one in magnitude truncates
      to zero. */
  lemma BelowOneTruncates(w: Rat, n: int, d: int)
    requires w.den > 0 && d > 0 && Abs(n) < d && SameValue(w, Rat(n, d))
    ensures Trunc(w) == 0
  {
    assert Abs(w.num) * d == Abs(n) * w.den by {
      if w.num < 0 {
        assert (-w.num) * d == (-n) * w.den;
      }
    }
    SmallMagnitude(Abs(w.num), w.den, Abs(n), d);
    var t := Trunc(w);
    MulSign(w.den, Abs(t));
  }

  lemma SmallMagnitude(a: nat, b: int, n: nat, d: int)
    requires b > 0 && d > 0 && n < d && a * d == n * b
    ensures a < b
  {
    MulSign(b, d - n);
    MulSign(d, a - b);
    assert a * d - b * d == d * (a - b);
    assert n * b - d * b == -(b * (d - n));
  }

  /** Quartering respects equality of value. */
  lemma QuarterSameValue(v: Rat, i: Rat)
    requires SameValue(v, i)
    ensures SameValue(Rat(i.num, 4 * i.den), Rat(v.num, 4 * v.den))
  {
    assert i.num * (4 * v.den) == 4 * (v.num * i.den);
  }

  // ---------------------------------------------------------------------
  // The examples of spec/fractional_class_methods_spec.rb:38-79
  //
  // Each joining of literal texts (`OneAndAHalfText`, `MinusText`,
  // `EighthsAfter`) is a lemma of its own: with the literals kept out of
  // the larger goals, the solver compares them once, in a small context.

  /** `0.5` is written `"1/2"`. */
  lemma HalfRendered()
    ensures RenderRational(Rat(1, 2)) == "1/2"
  {
    var q := Rat(1, 2);
    assert Trunc(q) == 0;
    HalfText();
  }

  lemma HalfText()
    ensures PartString(Rat(1, 2)) == "1/2"
  {
    assert Gcd(1, 2) == 1 by {
      assert Gcd(1, 2) == Gcd(2, 1) == Gcd(1, 0);
    }
    assert Reduce(1, 2) == Rat(1, 2);
  }

  /** `1.5` is written `"1 1/2"`. */
  lemma OneAndAHalfRendered()
    ensures RenderRational(Rat(3, 2)) == "1 1/2"
  {
    var q := Rat(3, 2);
    assert Trunc(q) == 1;
    assert FractionalPart(q) == Rat(1, 2);
    HalfText();
    RenderedMixed(q, "1/2");
    OneAndAHalfText(IntToString(Trunc(q)));
  }

  lemma OneAndAHalfText(a: string)
    requires a == "1"
    ensures a + " " + "1/2" == "1 1/2"
  {
  }

  lemma ElevenHundredDigits()
    ensures NatToString(1100) == "1100"
  {
    assert NatToString(1) == "1";
    assert NatToString(11) == NatToString(1) + "1";
    assert NatToString(110) == NatToString(11) + "0";
    assert NatToString(1100) == NatToString(110) + "0";
  }


  lemma MinusElevenHundredText(w: int)
    requires w == -1100
    ensures IntToString(w) == "-1100"
  {
    ElevenHundredDigits();
    MinusText(Sign(w < 0), NatToString(Abs(w)));
  }

  lemma MinusText(m: string, a: string)
    requires m == "-" && a == "1100"
    ensures m + a == "-1100"
  {
  }

  lemma EighthsAfter(a: string)
    requires a == "1100" || a == "-1100"
    ensures a == "1100" ==> a + " " + "7/8" == "1100 7/8"
    ensures a == "-1100" ==> a + " " + "7/8" == "-1100 7/8"
  {
  }

  lemma SevenEighthsText()
    ensures PartString(Rat(7, 8)) == "7/8"
  {
    assert Gcd(7, 8) == 1 by {
      assert Gcd(7, 8) == Gcd(8, 7) == Gcd(7, 1) == Gcd(1, 0);
    }
    assert Reduce(7, 8) == Rat(7, 8);
    SevenEighthsDigits();
  }

  lemma SevenEighthsDigits()
    ensures RatToString(Rat(7, 8)) == "7/8"
  {
    assert IntToString(7) == "7" && NatToString(8) == "8";
  }

  lemma RenderedMixed(q: Rat, fp: string)
    requires q.den > 0 && Trunc(q) != 0 && FractionalPart(q).num != 0
    requires PartString(Rat(Abs(FractionalPart(q).num), q.den)) == fp
    ensures RenderRational(q) == IntToString(Trunc(q)) + " " + fp
  {
  }


  /** `1100.875` is written `"1100 7/8"`. */
  lemma EighthsRendered()
    ensures RenderRational(Rat(8807, 8)) == "1100 7/8"
  {
    var q := Rat(8807, 8);
    assert Trunc(q) == 1100;
    assert FractionalPart(q) == Rat(7, 8);
    SevenEighthsText();
    RenderedMixed(q, "7/8");
    ElevenHundredDigits();
    assert IntToString(1100) == "1100";
    EighthsAfter(IntToString(Trunc(q)));
  }

  /** `1100` is written `"1100"`. */
  lemma IntegerRendered()
    ensures RenderRational(Rat(1100, 1)) == "1100"
  {
    var q := Rat(1100, 1);
    assert Trunc(q) == 1100;
    assert FractionalPart(q) == Rat(0, 1);
    ElevenHundredDigits();
    assert IntToString(1100) == "1100";
  }

  /** `-1100.875` is written `"-1100 7/8"`. */
  lemma NegativeEighthsRendered()
    ensures RenderRational(Rat(-8807, 8)) == "-1100 7/8"
  {
    var q := Rat(-8807, 8);
    assert Trunc(q) == -1100;
    assert FractionalPart(q) == Rat(-7, 8);
    SevenEighthsText();
    RenderedMixed(q, "7/8");
    MinusElevenHundredText(Trunc(q));
    EighthsAfter(IntToString(Trunc(q)));
  }

  /** Zero has a zero integer part and is written as a fraction, `"0/1"`. */
  lemma ZeroRendered()
    ensures RenderRational(Rat(0, 1)) == "0/1"
  {
    assert Gcd(0, 1) == 1;
    assert Reduce(0, 1) == Rat(0, 1);
    assert NatToString(0) == "0" && NatToString(1) == "1";
    assert RatToString(Rat(0, 1)) == "0/1";
  }

  /** `-0.875` is written `"-7/8"`. */
  lemma NegativeSingleRendered()
    ensures RenderRational(Rat(-7, 8)) == "-7/8"
  {
    var q := Rat(-7, 8);
    assert Trunc(q) == 0;
    assert Gcd(7, 8) == 1 by {
      assert Gcd(7, 8) == Gcd(8, 7) == Gcd(7, 1) == Gcd(1, 0);
    }
    assert Reduce(-7, 8) == Rat(-7, 8);
  }
}
