/** Exact rationals as Ruby's `Rational` keeps them: a numerator and a
    positive denominator in lowest terms. The model needs only reduction,
    truncation, the sign-on-numerator text form, and the fact that lowest
    terms are unique. */
module Rationals {
  import opened Numerals

  datatype Rat = Rat(num: int, den: int)

  /** The value of a float or of a division: an exact rational, or one of the
      three IEEE 754 non-finite results, kept apart so that they never reach
      rational arithmetic. */
  datatype Exact = Finite(value: Rat) | Undefined | PosInf | NegInf

  function Abs(x: int): nat {
    if x < 0 then -x else x
  }

  /** Greatest common divisor, by Euclid's algorithm. */
  function Gcd(a: nat, b: nat): nat
    decreases b
  {
    if b == 0 then a else Gcd(b, a % b)
  }

  /** Lowest terms with a positive denominator: the only form `Rational`
      ever holds. */
  predicate Reduced(q: Rat) {
    q.den > 0 && Gcd(Abs(q.num), q.den) == 1
  }

  /** `p` and `q` denote the same number (both denominators nonzero). */
  predicate SameValue(p: Rat, q: Rat) {
    p.num * q.den == q.num * p.den
  }

  // ---------------------------------------------------------------------
  // Euclidean division facts

  /** The sign of a product with a positive factor follows the other
      factor. */
  lemma {:induction false} MulSign(d: int, t: int)
    requires d > 0
    ensures t >= 1 ==> d * t >= d
    ensures t == 0 ==> d * t == 0
    ensures t <= -1 ==> d * t <= -d
    decreases if t < 0 then -t else t
  {
    if t > 1 {
      MulSign(d, t - 1);
      assert d * t == d * (t - 1) + d;
    } else if t < -1 {
      MulSign(d, t + 1);
      assert d * t == d * (t + 1) - d;
    }
  }

  lemma DivModUnique(n: int, d: int, q: int, r: int)
    requires d > 0 && n == d * q + r && 0 <= r < d
    ensures n / d == q && n % d == r
  {
    var q', r' := n / d, n % d;
    assert d * (q - q') == r' - r;
    MulSign(d, q - q');
  }

  lemma ModOfMultiple(k: int, t: int)
    requires k > 0
    ensures (k * t) % k == 0 && (k * t) / k == t
  {
    DivModUnique(k * t, k, t, 0);
  }

  /** A common divisor of `x` and `y` divides `x * c + y`. */
  lemma ModLinear(g: int, x: int, y: int, c: int)
    requires g > 0 && x % g == 0 && y % g == 0
    ensures (x * c + y) % g == 0
  {
    var x', y' := x / g, y / g;
    assert x == g * x' && y == g * y';
    assert x * c + y == g * (x' * c + y');
    ModOfMultiple(g, x' * c + y');
  }

  lemma MulMod(k: int, a: nat, b: nat)
    requires k > 0 && b > 0
    ensures (k * a) % (k * b) == k * (a % b)
  {
    var q, r := a / b, a % b;
    assert a == b * q + r;
    assert k * a == (k * b) * q + k * r;
    assert 0 <= k * r < k * b;
    DivModUnique(k * a, k * b, q, k * r);
  }

  /** A positive multiple of `b` is at least `b`. */
  lemma MultipleAtLeast(b: int, d: int)
    requires b > 0 && d > 0 && d % b == 0
    ensures d >= b
  {
    assert d == b * (d / b);
    MulSign(b, d / b);
  }

  // ---------------------------------------------------------------------
  // The greatest common divisor

  lemma {:induction false} GcdDivides(a: nat, b: nat)
    requires a > 0 || b > 0
    ensures Gcd(a, b) > 0 && a % Gcd(a, b) == 0 && b % Gcd(a, b) == 0
    decreases b
  {
    if b == 0 {
      ModOfMultiple(a, 1);
    } else {
      GcdDivides(b, a % b);
      var g := Gcd(a, b);
      assert a == b * (a / b) + a % b;
      ModLinear(g, b, a % b, a / b);
    }
  }

  /** Every common divisor divides the greatest common divisor. */
  lemma {:induction false} GcdGreatest(a: nat, b: nat, k: int)
    requires k > 0 && a % k == 0 && b % k == 0
    ensures Gcd(a, b) % k == 0
    decreases b
  {
    if b != 0 {
      assert a % b == b * -(a / b) + a;
      ModLinear(k, b, a, -(a / b));
      GcdGreatest(b, a % b, k);
    }
  }

  /** Scaling both arguments scales the greatest common divisor. */
  lemma {:induction false} GcdScale(k: nat, a: nat, b: nat)
    requires k > 0
    ensures Gcd(k * a, k * b) == k * Gcd(a, b)
    decreases b
  {
    if b != 0 {
      MulMod(k, a, b);
      GcdScale(k, b, a % b);
    }
  }

  /** Euclid's lemma: a divisor of `a * c` that shares no factor with `a`
      divides `c`. */
  lemma CoprimeFactor(a: nat, b: nat, c: nat)
    requires b > 0 && Gcd(a, b) == 1 && (a * c) % b == 0
    ensures c % b == 0
  {
    if c > 0 {
      GcdScale(c, a, b);
      ModOfMultiple(b, c);
      assert (c * a) % b == 0 && (c * b) % b == 0;
      GcdGreatest(c * a, c * b, b);
    }
  }

  // ---------------------------------------------------------------------
  // Reduction, uniqueness of lowest terms, truncation

  /** `n / d` in lowest terms with a positive denominator. */
  function Reduce(n: int, d: int): (r: Rat)
    requires d > 0
    ensures Reduced(r)
    ensures SameValue(r, Rat(n, d))
    ensures r.den <= d
  {
    var g := Gcd(Abs(n), d);
    GcdDivides(Abs(n), d);
    ReduceFacts(n, d, g);
    Rat(n / g, d / g)
  }

  /** Dividing a multiple of `g` by `g` is exact, and commutes with
      taking magnitudes. */
  lemma ExactDivision(n: int, g: int)
    requires g > 0 && Abs(n) % g == 0
    ensures n == g * (n / g)
    ensures Abs(n / g) == Abs(n) / g
  {
    var a := Abs(n) / g;
    assert Abs(n) == g * a;
    if n < 0 {
      assert n == g * -a;
      DivModUnique(n, g, -a, 0);
    } else {
      DivModUnique(n, g, a, 0);
    }
  }

  lemma ReduceFacts(n: int, d: int, g: nat)
    requires d > 0 && g == Gcd(Abs(n), d) && g > 0
    requires Abs(n) % g == 0 && d % g == 0
    ensures 0 < d / g <= d && Gcd(Abs(n / g), d / g) == 1
    ensures (n / g) * d == n * (d / g)
  {
    ExactDivision(n, g);
    ExactDivision(d, g);
    QuotientBounds(d, g);
    CoprimeQuotients(Abs(n), d, g, Abs(n / g), d / g);
    CrossQuotients(n, d, g, n / g, d / g);
  }

  /** Dividing out the greatest common divisor leaves coprime parts. */
  lemma CoprimeQuotients(a: nat, d: nat, g: nat, a': nat, d': nat)
    requires g > 0 && g == Gcd(a, d) && a == g * a' && d == g * d'
    ensures Gcd(a', d') == 1
  {
    GcdScale(g, a', d');
    var h := Gcd(a', d');
    assert g * h == g * 1;
    CancelFactor(g, h, 1);
  }

  lemma CrossQuotients(n: int, d: int, g: int, n': int, d': int)
    requires n == g * n' && d == g * d'
    ensures n' * d == n * d'
  {
    assert n' * (g * d') == (g * n') * d';
  }

  lemma CancelFactor(g: int, x: int, y: int)
    requires g > 0 && g * x == g * y
    ensures x == y
  {
    assert g * (x - y) == 0;
    MulSign(g, x - y);
  }

  lemma QuotientBounds(d: int, g: int)
    requires d > 0 && g > 0 && d == g * (d / g)
    ensures 0 < d / g <= d
  {
    MulSign(g, d / g);
    MulSign(d / g, g);
  }

  /** Two rationals of the same value with positive denominators have
      numerators of the same sign, and magnitudes in the same ratio. */
  lemma SameValueMagnitudes(p: Rat, q: Rat)
    requires p.den > 0 && q.den > 0 && SameValue(p, q)
    ensures Abs(p.num) * q.den == Abs(q.num) * p.den
  {
    MulSign(q.den, p.num);
    MulSign(p.den, q.num);
    if p.num < 0 {
      assert Abs(p.num) * q.den == -(p.num * q.den);
      assert Abs(q.num) * p.den == -(q.num * p.den);
    }
  }

  /** Lowest terms are unique: two reduced rationals with the same value are
      the same pair. */
  lemma ReducedUnique(p: Rat, q: Rat)
    requires Reduced(p) && Reduced(q) && SameValue(p, q)
    ensures p == q
  {
    var a, b, c, d := Abs(p.num), p.den, Abs(q.num), q.den;
    SameValueMagnitudes(p, q);
    assert a * d == b * c;
    ModOfMultiple(b, c);
    CoprimeFactor(a, b, d);
    assert c * b == d * a;
    ModOfMultiple(d, a);
    CoprimeFactor(c, d, b);
    MultipleAtLeast(b, d);
    MultipleAtLeast(d, b);
    assert (p.num - q.num) * d == 0;
    MulSign(d, p.num - q.num);
  }

  /** Rationals of the same value with positive denominators have
      numerators of the same sign. */
  lemma SameValueSign(p: Rat, q: Rat)
    requires p.den > 0 && q.den > 0 && SameValue(p, q)
    ensures p.num < 0 <==> q.num < 0
    ensures p.num == 0 <==> q.num == 0
  {
    MulSign(q.den, p.num);
    MulSign(p.den, q.num);
  }

  /** Having the same value is transitive through a rational with a
      nonzero denominator. */
  lemma SameValueTransitive(p: Rat, q: Rat, r: Rat)
    requires q.den > 0 && SameValue(p, q) && SameValue(q, r)
    ensures SameValue(p, r)
  {
    assert (p.num * r.den) * q.den == (q.num * p.den) * r.den;
    assert (r.num * p.den) * q.den == (q.num * r.den) * p.den;
    assert (p.num * r.den - r.num * p.den) * q.den == 0;
    MulSign(q.den, p.num * r.den - r.num * p.den);
  }

  /** Truncation toward zero, as `Float#truncate` rounds. */
  function Trunc(q: Rat): (w: int)
    requires q.den > 0
    ensures Abs(w) * q.den <= Abs(q.num) < (Abs(w) + 1) * q.den
    ensures w > 0 ==> q.num > 0
    ensures w < 0 ==> q.num < 0
  {
    var m := Abs(q.num) / q.den;
    assert Abs(q.num) == q.den * m + Abs(q.num) % q.den;
    assert (m + 1) * q.den == m * q.den + q.den;
    if q.num >= 0 then m else -m
  }

  /** `t` is the numeral of `n` before position `k`, a slash at `k` and
      the numeral of `d` after it. */
  predicate FractionAt(t: string, k: int, n: int, d: nat) {
    && 0 < k < |t| && t[k] == '/'
    && IsNumeral(t[..k], n) && IsNatNumeral(t[k + 1..], d)
  }

  /** `Rational#to_s`: the numerator, carrying the sign, a slash, and the
      denominator, in digits, minus signs and one slash only. */
  function RatToString(q: Rat): (r: string)
    requires q.den > 0
    ensures exists k :: FractionAt(r, k, q.num, q.den)
    ensures forall i :: 0 <= i < |r| ==> IsDigit(r[i]) || r[i] == '-' || r[i] == '/'
  {
    var num, den := IntToString(q.num), NatToString(q.den);
    RatTextFacts(q, num, den);
    num + ("/" + den)
  }

  lemma RatTextFacts(q: Rat, num: string, den: string)
    requires q.den > 0 && num == IntToString(q.num) && den == NatToString(q.den)
    ensures FractionAt(num + ("/" + den), |num|, q.num, q.den)
    ensures var r := num + ("/" + den);
      forall i :: 0 <= i < |r| ==> IsDigit(r[i]) || r[i] == '-' || r[i] == '/'
  {
    SlashAt(num, den);
    var r := num + ("/" + den);
    forall i | 0 <= i < |r|
      ensures IsDigit(r[i]) || r[i] == '-' || r[i] == '/'
    {
      if i < |num| {
        assert r[i] == num[i];
      } else if i > |num| {
        assert r[i] == den[i - |num| - 1];
      }
    }
  }

  /** `RatToString` writes the only fraction text of `n/d`: two texts
      that spell the same numerator and denominator are the same text. */
  lemma FractionTextUnique(t: string, k: int, n: int, d: nat)
    requires d > 0 && FractionAt(t, k, n, d)
    ensures t == RatToString(Rat(n, d))
  {
    var a, b := t[..k], t[k + 1..];
    NumeralUnique(a, n);
    NatNumeralUnique(b, d);
    SlashSplit(t, k);
    assert RatToString(Rat(n, d)) == IntToString(n) + ("/" + NatToString(d));
  }

  lemma SlashSplit(t: string, k: int)
    requires 0 <= k < |t| && t[k] == '/'
    ensures t == t[..k] + ("/" + t[k + 1..])
  {
  }

  lemma SlashAt(a: string, b: string)
    ensures var t := a + ("/" + b); t[..|a|] == a && t[|a|] == '/' && t[|a| + 1..] == b
  {
  }
}
