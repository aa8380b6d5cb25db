/** `Fractional.float_to_rational` (lib/fractional.rb:105-119): the exact
    value of an IEEE 754 binary64 number, read from its 64-bit pattern.

    The source packs the float big-endian (`pack("G")`), spells the bytes as
    a string of 64 binary digits (`unpack("B*")`), cuts that string into a
    sign digit, eleven exponent digits and fifty-two fraction digits
    (`unpack("AA11A52")`) and reads each back with `to_i(2)`. The decoded
    value is then built with `Rational` arithmetic, which keeps lowest
    terms. */
module Float64 {
  import opened Wrappers
  import opened Numerals
  import opened Rationals

  function Pow2(k: nat): (r: nat)
    ensures r >= 1
  {
    if k == 0 then 1 else 2 * Pow2(k - 1)
  }

  lemma {:induction false} Pow2Add(a: nat, b: nat)
    ensures Pow2(a + b) == Pow2(a) * Pow2(b)
    decreases b
  {
    if b > 0 {
      Pow2Add(a, b - 1);
      assert Pow2(a + b) == 2 * Pow2(a + (b - 1));
    }
  }

  lemma {:induction false} Pow2Monotone(a: nat, b: nat)
    requires a <= b
    ensures Pow2(a) <= Pow2(b)
    decreases b
  {
    if a < b {
      Pow2Monotone(a, b - 1);
    }
  }

  /** The field width `2^52` as a number, so that the solver need not
      evaluate it inside products. */
  lemma Pow2Of52()
    ensures Pow2(52) == 4503599627370496
  {
    assert Pow2(4) == 16;
    Pow2Product(4, 4, 16, 16);
    Pow2Product(8, 8, 256, 256);
    Pow2Product(16, 16, 65536, 65536);
    Pow2Product(32, 16, 4294967296, 65536);
    Pow2Product(48, 4, 281474976710656, 16);
  }

  lemma Pow2Product(a: nat, b: nat, u: nat, v: nat)
    requires Pow2(a) == u && Pow2(b) == v
    ensures Pow2(a + b) == u * v
  {
    Pow2Add(a, b);
  }

  // ---------------------------------------------------------------------
  // Binary digit strings: `unpack("B*")` and `to_i(2)`

  predicate IsBit(c: char) {
    c == '0' || c == '1'
  }

  predicate AllBits(t: string) {
    forall i :: 0 <= i < |t| ==> IsBit(t[i])
  }

  function BitChar(b: nat): (c: char)
    requires b < 2
    ensures IsBit(c)
  {
    if b == 1 then '1' else '0'
  }

  /** The lowest `width` bits of `n`, most significant first. */
  function BitString(n: nat, width: nat): (r: string)
    ensures |r| == width && AllBits(r)
  {
    if width == 0 then ""
    else BitString(n / 2, width - 1) + [BitChar(n % 2)]
  }

  /** `to_i(2)`: the natural a string of binary digits denotes. */
  function BinaryValue(t: string): (v: nat)
    requires AllBits(t)
    ensures v < Pow2(|t|)
  {
    if |t| == 0 then 0
    else 2 * BinaryValue(t[..|t| - 1]) + (if t[|t| - 1] == '1' then 1 else 0)
  }

  /** Halving then reducing modulo `p` is reducing modulo `2 p` then
      halving. */
  lemma HalveMod(n: nat, p: nat)
    requires p > 0
    ensures 2 * ((n / 2) % p) + n % 2 == n % (2 * p)
    ensures (n / 2) / p == n / (2 * p)
  {
    var q, r := (n / 2) / p, (n / 2) % p;
    assert n / 2 == p * q + r;
    assert n == 2 * (n / 2) + n % 2;
    assert n == (2 * p) * q + (2 * r + n % 2);
    DivModUnique(n, 2 * p, q, 2 * r + n % 2);
  }

  /** Reading the bits back gives the number modulo `2^width`. */
  lemma {:induction false} BinaryOfBitString(n: nat, width: nat)
    ensures BinaryValue(BitString(n, width)) == n % Pow2(width)
    decreases width
  {
    if width == 0 {
      ModOfMultiple(1, n);
      assert n == 1 * n;
    } else {
      var t := BitString(n, width);
      assert t[..width - 1] == BitString(n / 2, width - 1);
      BinaryOfBitString(n / 2, width - 1);
      HalveMod(n, Pow2(width - 1));
    }
  }

  /** Spelling out what a digit string denotes gives the digit string. */
  lemma {:induction false} BitStringOfBinary(t: string)
    requires AllBits(t)
    ensures BitString(BinaryValue(t), |t|) == t
    decreases |t|
  {
    if |t| > 0 {
      var init := t[..|t| - 1];
      var v := BinaryValue(t);
      var b := if t[|t| - 1] == '1' then 1 else 0;
      DivModUnique(v, 2, BinaryValue(init), b);
      BitStringOfBinary(init);
      assert t == init + [t[|t| - 1]];
    }
  }

  /** `n` shifted right by `b` bits. */
  function DropBits(n: nat, b: nat): nat {
    if b == 0 then n else DropBits(n / 2, b - 1)
  }

  /** Shifting right by `b` bits divides by `2^b`. */
  lemma {:induction false} DropBitsDivides(n: nat, b: nat)
    ensures DropBits(n, b) == n / Pow2(b)
    decreases b
  {
    if b == 0 {
      DivModUnique(n, 1, n, 0);
    } else {
      DropBitsDivides(n / 2, b - 1);
      HalvePow2(n, b);
    }
  }

  /** The high `a` bits of a `a + b`-bit spelling are the spelling of what
      remains after dropping the low `b` bits. */
  lemma {:induction false} BitStringSplit(n: nat, a: nat, b: nat)
    ensures BitString(n, a + b) == BitString(DropBits(n, b), a) + BitString(n, b)
    decreases b
  {
    if b > 0 {
      var c := [BitChar(n % 2)];
      BitStringSplit(n / 2, a, b - 1);
      var x, y := BitString(DropBits(n, b), a), BitString(n / 2, b - 1);
      assert BitString(n, a + b) == BitString(n / 2, a + (b - 1)) + c;
      assert (x + y) + c == x + (y + c);
    }
  }

  lemma HalvePow2(n: nat, b: nat)
    requires b > 0
    ensures (n / 2) / Pow2(b - 1) == n / Pow2(b)
  {
    var p := Pow2(b - 1);
    assert Pow2(b) == 2 * p;
    HalveMod(n, p);
  }

  // ---------------------------------------------------------------------
  // The three fields

  datatype Fields = Fields(sign: nat, exponent: nat, fraction: nat)

  predicate ValidFields(x: Fields) {
    x.sign < 2 && x.exponent < Pow2(11) && x.fraction < Pow2(52)
  }

  /** The 64-bit pattern with the fields in place. */
  function Pack(x: Fields): nat {
    NatProduct(x.sign, Pow2(63));
    NatProduct(x.exponent, Pow2(52));
    x.sign * Pow2(63) + x.exponent * Pow2(52) + x.fraction
  }

  lemma NatProduct(a: nat, b: nat)
    ensures a * b >= 0
  {
  }

  /** `[value].pack("G").unpack("B*").first.unpack("AA11A52")`, each field
      read with `to_i(2)`. */
  function Unpack(bits: nat): (x: Fields)
    requires bits < Pow2(64)
    ensures ValidFields(x)
    ensures Pack(x) == bits
  {
    var t := BitString(bits, 64);
    var x := Fields(BinaryValue(t[..1]), BinaryValue(t[1..12]), BinaryValue(t[12..]));
    UnpackFacts(bits, t, x);
    x
  }

  lemma UnpackFacts(bits: nat, t: string, x: Fields)
    requires bits < Pow2(64) && t == BitString(bits, 64)
    requires x == Fields(BinaryValue(t[..1]), BinaryValue(t[1..12]), BinaryValue(t[12..]))
    ensures ValidFields(x) && Pack(x) == bits
  {
    var high := DropBits(bits, 52);
    UnpackDigits(bits, t, x);
    FieldsOfBits(bits, x, high, DropBits(high, 11));
  }

  /** The three bit groups of a 64-bit number are valid fields that pack
      back into it. */
  lemma FieldsOfBits(bits: nat, x: Fields, high: nat, top: nat)
    requires bits < Pow2(64) && high == DropBits(bits, 52) && top == DropBits(high, 11)
    requires x == Fields(top % Pow2(1), high % Pow2(11), bits % Pow2(52))
    ensures ValidFields(x) && Pack(x) == bits
  {
    Pow2Of52();
    assert Pow2(1) == 2 && Pow2(11) == 2048;
    DropBitsDivides(bits, 52);
    DropBitsDivides(high, 11);
    Pow2Product(52, 11, 4503599627370496, 2048);
    Pow2Product(63, 1, 9223372036854775808, 2);
    UnpackArith(bits, x, Pow2(52), Pow2(11), high, top);
  }

  /** Each field read back is the corresponding bit group of the number. */
  lemma UnpackDigits(bits: nat, t: string, x: Fields)
    requires t == BitString(bits, 64)
    requires x == Fields(BinaryValue(t[..1]), BinaryValue(t[1..12]), BinaryValue(t[12..]))
    ensures var high := DropBits(bits, 52);
      x == Fields(DropBits(high, 11) % Pow2(1), high % Pow2(11), bits % Pow2(52))
  {
    var high := DropBits(bits, 52);
    UnpackSlices(bits, t);
    BinaryOfBitString(DropBits(high, 11), 1);
    BinaryOfBitString(high, 11);
    BinaryOfBitString(bits, 52);
  }

  /** Where the three fields sit in the 64-bit spelling. */
  lemma UnpackSlices(bits: nat, t: string)
    requires t == BitString(bits, 64)
    ensures var high := DropBits(bits, 52);
      && t[..1] == BitString(DropBits(high, 11), 1)
      && t[1..12] == BitString(high, 11)
      && t[12..] == BitString(bits, 52)
  {
    var high := DropBits(bits, 52);
    BitStringSplit(bits, 12, 52);
    BitStringSplit(high, 1, 11);
    var s, e, f := BitString(DropBits(high, 11), 1), BitString(high, 11), BitString(bits, 52);
    assert t == (s + e) + f;
  }

  lemma UnpackArith(bits: nat, x: Fields, p: int, q: int, high: int, top: int)
    requires p == Pow2(52) && q == Pow2(11) && Pow2(63) == p * q && 0 <= bits < 2 * (p * q)
    requires high == bits / p && top == high / q
    requires x.sign == top % 2 && x.exponent == high % q && x.fraction == bits % p
    ensures ValidFields(x) && Pack(x) == bits
  {
    Unradix(p, q, bits);
  }

  /** A number below `2 p q` splits into a top bit, a digit below `q` and a
      digit below `p`. */
  lemma Unradix(p: int, q: int, n: int)
    requires p > 0 && q > 0 && 0 <= n < 2 * (p * q)
    ensures var h := n / p;
      && 0 <= h / q < 2 && (h / q) % 2 == h / q
      && n == (h / q) * (p * q) + (h % q) * p + n % p
  {
    var h := n / p;
    var s, r := h / q, h % q;
    assert n == p * h + n % p;
    MulSign(p, h);
    assert h == q * s + r;
    MulSign(q, s);
    NestedDivision(p, q, n, h, s, r);
    TopDigit(p, q, n, s, r, n % p);
    DivModUnique(s, 2, 0, s);
  }

  lemma NestedDivision(p: int, q: int, n: int, h: int, s: int, r: int)
    requires p > 0 && q > 0 && 0 <= n
    requires h == n / p && s == h / q && r == h % q
    ensures n == s * (p * q) + r * p + n % p
  {
    assert n == p * h + n % p;
    assert h == q * s + r;
    assert p * (q * s + r) == (p * q) * s + p * r;
  }

  lemma TopDigit(p: int, q: int, n: int, s: int, r: int, m: int)
    requires p > 0 && q > 0 && 0 <= n < 2 * (p * q) && 0 <= r && 0 <= m && 0 <= s
    requires n == s * (p * q) + r * p + m
    ensures s < 2
  {
    var pq := p * q;
    MulSign(p, r);
    MulSign(pq, s - 2);
    assert pq * s == pq * (s - 2) + 2 * pq;
  }

  /** Digits below `p` and `q` and a top digit, put together, are found
      again by division. */
  lemma Radix(p: int, q: int, hi: int, mid: int, lo: int)
    requires p > 0 && q > 0 && 0 <= mid < q && 0 <= lo < p
    ensures 0 <= mid * p + lo < p * q
    ensures (hi * (p * q) + (mid * p + lo)) / (p * q) == hi
    ensures (hi * (p * q) + (mid * p + lo)) % (p * q) == mid * p + lo
    ensures (mid * p + lo) / p == mid && (mid * p + lo) % p == lo
  {
    MulSign(p, q - 1 - mid);
    MulSign(p, mid);
    assert p * (q - 1 - mid) == p * q - p - mid * p;
    DivModUnique(hi * (p * q) + (mid * p + lo), p * q, hi, mid * p + lo);
    DivModUnique(mid * p + lo, p, mid, lo);
  }

  /** A pattern determines its fields. */
  lemma FieldsUnique(x: Fields, y: Fields)
    requires ValidFields(x) && ValidFields(y) && Pack(x) == Pack(y)
    ensures x == y
  {
    var p, q := Pow2(52), Pow2(11);
    Pow2Add(52, 11);
    PackForm(x, p, q);
    PackForm(y, p, q);
    RadixUnique(p, q, x.sign, x.exponent, x.fraction, y.sign, y.exponent, y.fraction);
  }

  lemma PackTerms(x: Fields, p: int, top: int)
    requires p == Pow2(52) && top == Pow2(63)
    ensures Pack(x) == x.sign * top + x.exponent * p + x.fraction
  {
  }

  lemma PackForm(x: Fields, p: int, q: int)
    requires p == Pow2(52) && q == Pow2(11) && Pow2(63) == p * q
    ensures Pack(x) == x.sign * (p * q) + (x.exponent * p + x.fraction)
  {
  }

  /** Digits in radix `p` below `q`, and a top digit, are unique. */
  lemma RadixUnique(p: int, q: int, a: int, b: int, c: int, a': int, b': int, c': int)
    requires p > 0 && q > 0 && 0 <= b < q && 0 <= c < p && 0 <= b' < q && 0 <= c' < p
    requires a * (p * q) + (b * p + c) == a' * (p * q) + (b' * p + c')
    ensures a == a' && b == b' && c == c'
  {
    Radix(p, q, a, b, c);
    Radix(p, q, a', b', c');
  }

  /** Every valid field triple packs into 64 bits. */
  lemma PackBound(x: Fields)
    requires ValidFields(x)
    ensures Pack(x) < Pow2(64)
  {
    var p, q := Pow2(52), Pow2(11);
    Pow2Add(52, 11);
    Pow2Add(63, 1);
    assert Pow2(1) == 2;
    Radix(p, q, x.sign, x.exponent, x.fraction);
    TopBound(p * q, x.sign, x.exponent * p + x.fraction);
  }

  lemma TopBound(pq: int, s: int, low: int)
    requires pq > 0 && 0 <= s < 2 && 0 <= low < pq
    ensures s * pq + low < 2 * pq
  {
    MulSign(pq, s);
    MulSign(pq, 1 - s);
  }

  /** Unpacking inverts packing. */
  lemma UnpackPack(x: Fields)
    requires ValidFields(x)
    ensures Pack(x) < Pow2(64)
    ensures Unpack(Pack(x)) == x
  {
    PackBound(x);
    FieldsUnique(x, Unpack(Pack(x)));
  }

  // ---------------------------------------------------------------------
  // Building the value with `Rational` arithmetic

  /** `Rational(2) ** k`. */
  function Power2(k: int): (r: Rat)
    ensures r.den > 0
  {
    if k >= 0 then Rat(Pow2(k), 1) else Rat(1, Pow2(-k))
  }

  /** `Rational#*` before reduction. */
  function Mul(p: Rat, q: Rat): (r: Rat)
    requires p.den > 0 && q.den > 0
    ensures r.den > 0
  {
    MulSign(p.den, q.den);
    Rat(p.num * q.num, p.den * q.den)
  }

  /** `(-1) ** s.to_i`. */
  function SignFactor(sign: nat): int {
    if sign == 0 then 1 else -1
  }

  /** `Rational(s) * Rational(2) ** (e - 1023) * Rational("1#{f}".to_i(2), 2^52)`:
      a normal number. */
  function NormalProduct(x: Fields): (r: Rat)
    ensures r.den > 0
  {
    Mul(Mul(Rat(SignFactor(x.sign), 1), Power2(x.exponent - 1023)), Rat(Pow2(52) + x.fraction, Pow2(52)))
  }

  /** `Rational(s) * Rational(2) ** scale * Rational("0#{f}".to_i(2), 2^52)`:
      a subnormal number, scaled by `2^scale`. */
  function SubnormalProduct(x: Fields, scale: int): (r: Rat)
    ensures r.den > 0
  {
    Mul(Mul(Rat(SignFactor(x.sign), 1), Power2(scale)), Rat(x.fraction, Pow2(52)))
  }

  /** What `float_to_rational` computes on the float whose pattern has the
      fields `x`, with the subnormal scale as a parameter: NaN and the
      infinities are caught first (`value.nan?`, `value.infinite?`), then
      the normal or the subnormal formula is applied. */
  function DecodeFields(x: Fields, subnormalScale: int): (r: Exact) {
    if x.exponent == 2047 && x.fraction != 0 then Undefined
    else if x.exponent == 2047 then (if x.sign == 1 then NegInf else PosInf)
    else if x.exponent != 0 then
      var q := NormalProduct(x);
      Finite(Reduce(q.num, q.den))
    else
      var q := SubnormalProduct(x, subnormalScale);
      Finite(Reduce(q.num, q.den))
  }

  /** What both decoders promise about the kind of their result: a NaN
      pattern gives no number, the two infinities give the two sentinels,
      and a finite result is in lowest terms, negative exactly when the
      sign bit is set and the number is nonzero, and zero exactly for the
      two zero patterns. */
  predicate Classified(x: Fields, r: Exact) {
    && (r.Undefined? <==> x.exponent == 2047 && x.fraction != 0)
    && (r.PosInf? <==> x.exponent == 2047 && x.fraction == 0 && x.sign == 0)
    && (r.NegInf? <==> x.exponent == 2047 && x.fraction == 0 && x.sign == 1)
    && (r.Finite? ==> Reduced(r.value))
    && (r.Finite? ==> (r.value.num < 0 <==> x.sign == 1 && (x.exponent != 0 || x.fraction != 0)))
    && (r.Finite? ==> (r.value.num == 0 <==> x.exponent == 0 && x.fraction == 0))
  }

  /** `float_to_rational` as written (lib/fractional.rb:105-119): a normal
      pattern gets its IEEE 754 value, but a subnormal one, scaled by
      `2**(-1024)` at lib/fractional.rb:117, gets a quarter of it. */
  function DecodeAsWritten(bits: nat): (r: Exact)
    requires bits < Pow2(64)
    ensures Classified(Unpack(bits), r)
    ensures var x := Unpack(bits);
      r.Finite? && x.exponent != 0 ==> SameValue(r.value, IeeeValue(x))
    ensures var x := Unpack(bits); var v := IeeeValue(x);
      r.Finite? && x.exponent == 0 ==> SameValue(r.value, Rat(v.num, 4 * v.den))
  {
    var x := Unpack(bits);
    DecodeClassified(x, -1024);
    AsWrittenValue(x);
    DecodeFields(x, -1024)
  }

  /** `float_to_rational` corrected: subnormals scaled by `2^-1022`, the
      scale of the smallest normal exponent, so that every finite pattern
      gets the value section 3.4 of IEEE 754-2008 gives it. */
  function Decode(bits: nat): (r: Exact)
    requires bits < Pow2(64)
    ensures Classified(Unpack(bits), r)
    ensures r.Finite? ==> SameValue(r.value, IeeeValue(Unpack(bits)))
  {
    var x := Unpack(bits);
    DecodeClassified(x, -1022);
    IeeeValueOf(x);
    DecodeFields(x, -1022)
  }

  lemma DecodeClassified(x: Fields, scale: int)
    requires x.sign < 2
    ensures Classified(x, DecodeFields(x, scale))
  {
    DecodeSign(x, scale);
  }

  lemma DecodeSign(x: Fields, scale: int)
    requires x.sign < 2
    ensures var r := DecodeFields(x, scale);
      && (r.Finite? ==> (r.value.num < 0 <==> x.sign == 1 && (x.exponent != 0 || x.fraction != 0)))
      && (r.Finite? ==> (r.value.num == 0 <==> x.exponent == 0 && x.fraction == 0))
  {
    NormalSign(x);
    SubnormalSign(x, scale);
  }

  lemma NormalSign(x: Fields)
    requires x.sign < 2
    ensures var q := NormalProduct(x); var r := Reduce(q.num, q.den);
      (r.num < 0 <==> x.sign == 1) && r.num != 0
  {
    Pow2Of52();
    var q := NormalProduct(x);
    var k, m := Power2(x.exponent - 1023), Pow2(52) + x.fraction;
    assert m > 0;
    ReducedProductSign(x, k, m, q);
    var r := Reduce(q.num, q.den);
    assert r.num < 0 <==> x.sign == 1;
  }

  lemma SubnormalSign(x: Fields, scale: int)
    requires x.sign < 2
    ensures var q := SubnormalProduct(x, scale); var r := Reduce(q.num, q.den);
      (r.num < 0 <==> x.sign == 1 && x.fraction != 0) && (r.num == 0 <==> x.fraction == 0)
  {
    ReducedProductSign(x, Power2(scale), x.fraction, SubnormalProduct(x, scale));
  }

  lemma ReducedProductSign(x: Fields, k: Rat, m: nat, q: Rat)
    requires x.sign < 2 && k.num > 0 && k.den > 0
    requires q == Mul(Mul(Rat(SignFactor(x.sign), 1), k), Rat(m, Pow2(52)))
    ensures var r := Reduce(q.num, q.den);
      && (r.num < 0 <==> x.sign == 1 && m > 0)
      && (r.num == 0 <==> m == 0)
  {
    ProductSign(SignFactor(x.sign), k, m, Pow2(52));
    SameValueSign(Reduce(q.num, q.den), q);
  }

  /** The sign of `s * 2^k * m / d` is the sign of `s * m`. */
  lemma ProductSign(s: int, k: Rat, m: nat, d: nat)
    requires s == 1 || s == -1
    requires k.num > 0 && k.den > 0 && d > 0
    ensures var q := Mul(Mul(Rat(s, 1), k), Rat(m, d));
      && (q.num < 0 <==> s == -1 && m > 0)
      && (q.num == 0 <==> m == 0)
  {
    var km := k.num * m;
    MulSign(k.num, m);
    assert (s * k.num) * m == s * km;
  }

  // ---------------------------------------------------------------------
  // The bottom of the range: gradual underflow

  /** A pattern below `2^53` is a positive number with exponent field 0 or
      1. */
  lemma SmallPatternFields(x: Fields)
    requires ValidFields(x) && Pack(x) < Pow2(53)
    ensures x.sign == 0 && x.exponent < 2
    ensures Pack(x) == if x.exponent == 0 then x.fraction else Pow2(52) + x.fraction
  {
    Pow2Monotone(53, 63);
    SmallPattern(x, Pack(x));
  }

  lemma SmallPattern(x: Fields, bits: nat)
    requires bits < Pow2(53) && Pow2(53) <= Pow2(63)
    requires ValidFields(x) && Pack(x) == bits
    ensures x.sign == 0 && x.exponent < 2
    ensures bits == if x.exponent == 0 then x.fraction else Pow2(52) + x.fraction
  {
    Pow2Of52();
    var p, top := Pow2(52), Pow2(63);
    assert Pow2(53) == 2 * p;
    PackTerms(x, p, top);
    LowFields(p, top, x.sign, x.exponent, x.fraction, bits);
  }

  lemma LowFields(p: int, top: int, s: int, e: int, f: int, n: int)
    requires p > 0 && top >= 2 * p && s >= 0 && e >= 0 && f >= 0
    requires n == s * top + e * p + f && n < 2 * p
    ensures s == 0 && e < 2 && n == if e == 0 then f else p + f
  {
    MulSign(top, s);
    MulSign(p, e);
    MulSign(p, e - 2);
    assert e * p == p * (e - 2) + 2 * p;
  }

  /** `m / 2^1074` as the product the source forms, for scale `2^-1022`. */
  lemma BottomProduct(m: nat)
    ensures Mul(Mul(Rat(SignFactor(0), 1), Power2(-1022)), Rat(m, Pow2(52))) == Rat(m, Pow2(1074))
  {
    Pow2Add(1022, 52);
  }

  /** Under IEEE 754 scaling, consecutive patterns from zero up through the
      first normal binade are `2^-1074` apart: the value of a pattern below
      `2^53` is the pattern over `2^1074`, so the subnormals continue the
      normal numbers without a gap. */
  lemma GradualUnderflow(x: Fields)
    requires ValidFields(x) && Pack(x) < Pow2(53)
    ensures DecodeFields(x, -1022).Finite?
    ensures SameValue(DecodeFields(x, -1022).value, Rat(Pack(x), Pow2(1074)))
  {
    SmallPatternFields(x);
    BottomDecode(x, Pack(x));
  }

  lemma BottomDecode(x: Fields, n: nat)
    requires x.sign == 0 && x.exponent < 2
    requires n == if x.exponent == 0 then x.fraction else Pow2(52) + x.fraction
    ensures DecodeFields(x, -1022) == Finite(Reduce(n, Pow2(1074)))
  {
    if x.exponent == 0 {
      SubnormalBottom(x);
      DecodeSubnormal(x, -1022, Rat(x.fraction, Pow2(1074)));
    } else {
      NormalBottom(x);
      DecodeNormal(x, -1022, Rat(Pow2(52) + x.fraction, Pow2(1074)));
    }
  }

  /** A finite normal pattern decodes to the normal product in lowest
      terms. */
  lemma DecodeNormal(x: Fields, scale: int, q: Rat)
    requires x.exponent != 0 && x.exponent != 2047 && NormalProduct(x) == q
    ensures DecodeFields(x, scale) == Finite(Reduce(q.num, q.den))
  {
  }

  /** A subnormal pattern decodes to the subnormal product in lowest
      terms. */
  lemma DecodeSubnormal(x: Fields, scale: int, q: Rat)
    requires x.exponent == 0 && SubnormalProduct(x, scale) == q
    ensures DecodeFields(x, scale) == Finite(Reduce(q.num, q.den))
  {
  }

  lemma SubnormalBottom(x: Fields)
    requires x.sign == 0
    ensures SubnormalProduct(x, -1022) == Rat(x.fraction, Pow2(1074))
  {
    BottomProduct(x.fraction);
  }

  lemma NormalBottom(x: Fields)
    requires x.sign == 0 && x.exponent == 1
    ensures NormalProduct(x) == Rat(Pow2(52) + x.fraction, Pow2(1074))
  {
    var m := Pow2(52) + x.fraction;
    NormalProductAt(x, -1022, m);
    BottomProduct(m);
  }

  lemma NormalProductAt(x: Fields, k: int, m: nat)
    requires x.sign == 0 && k == x.exponent - 1023 && m == Pow2(52) + x.fraction
    ensures NormalProduct(x) == Mul(Mul(Rat(SignFactor(0), 1), Power2(k)), Rat(m, Pow2(52)))
  {
    Pow2Of52();
  }

  /** The subnormal formula as written: `m / 2^1076`. */
  lemma BottomProductAsWritten(m: nat)
    ensures Mul(Mul(Rat(SignFactor(0), 1), Power2(-1024)), Rat(m, Pow2(52))) == Rat(m, Pow2(1076))
  {
    Pow2Add(1024, 52);
  }

  /** As written, every positive subnormal comes out a quarter of its IEEE
      754 value: `f / 2^1076` instead of `f / 2^1074`. */
  lemma SubnormalAsWritten(x: Fields)
    requires ValidFields(x) && x.sign == 0 && x.exponent == 0
    ensures DecodeFields(x, -1024).Finite? && DecodeFields(x, -1022).Finite?
    ensures SameValue(DecodeFields(x, -1024).value, Rat(x.fraction, Pow2(1076)))
    ensures SameValue(DecodeFields(x, -1022).value, Rat(x.fraction, Pow2(1074)))
  {
    var low, ieee := Rat(x.fraction, Pow2(1076)), Rat(x.fraction, Pow2(1074));
    BottomProductAsWritten(x.fraction);
    DecodeSubnormal(x, -1024, low);
    SubnormalBottom(x);
    DecodeSubnormal(x, -1022, ieee);
  }

  lemma {:induction false} GcdOne(d: nat)
    requires d > 0
    ensures Gcd(1, d) == 1
  {
    if d > 1 {
      DivModUnique(1, d, 0, 1);
      assert Gcd(1, d) == Gcd(d, 1);
      DivModUnique(d, 1, d, 0);
    }
  }

  /** The smallest positive pattern, `0x0000000000000001`, decodes to
      `2^-1076` as written; IEEE 754 gives it the value `2^-1074`. */
  lemma SmallestSubnormalAsWritten()
    ensures Pack(Fields(0, 0, 1)) == 1
    ensures DecodeFields(Fields(0, 0, 1), -1024) == Finite(Rat(1, Pow2(1076)))
    ensures DecodeFields(Fields(0, 0, 1), -1022) == Finite(Rat(1, Pow2(1074)))
    ensures DecodeFields(Fields(0, 0, 1), -1024) != DecodeFields(Fields(0, 0, 1), -1022)
  {
    var x := Fields(0, 0, 1);
    SubnormalAsWritten(x);
    GcdOne(Pow2(1076));
    GcdOne(Pow2(1074));
    ReducedUnique(DecodeFields(x, -1024).value, Rat(1, Pow2(1076)));
    ReducedUnique(DecodeFields(x, -1022).value, Rat(1, Pow2(1074)));
    Pow2Add(1074, 2);
  }

  // ---------------------------------------------------------------------
  // The value IEEE 754 assigns, stated independently of the source formula

  /** `m * 2^k`, with a positive denominator. */
  function Scaled(m: int, k: int): (r: Rat)
    ensures r.den > 0
  {
    if k >= 0 then Rat(m * Pow2(k), 1) else Rat(m, Pow2(-k))
  }

  /** The value section 3.4 of IEEE 754-2008 gives a finite binary64
      pattern: a signed integer significand times `2^(e - 1075)`, with the
      implicit leading bit for normal numbers and the exponent of the
      smallest normal number, `2^-1074` per unit, for subnormal ones. */
  function IeeeValue(x: Fields): (r: Rat)
    ensures r.den > 0
  {
    if x.exponent == 0 then Scaled(SignFactor(x.sign) * x.fraction, -1074)
    else Scaled(SignFactor(x.sign) * (Pow2(52) + x.fraction), x.exponent - 1075)
  }

  /** `Rational(s) * Rational(2) ** k * Rational(m, 2^52)` is `s * m * 2^(k - 52)`. */
  lemma ProductScaled(s: int, k: int, m: int)
    ensures SameValue(Mul(Mul(Rat(s, 1), Power2(k)), Rat(m, Pow2(52))), Scaled(s * m, k - 52))
  {
    Pow2Of52();
    var p := Pow2(52);
    if k >= 52 {
      Pow2Add(k - 52, 52);
      ScaleCross(s, m, Pow2(k), Pow2(k - 52), p);
    } else if k >= 0 {
      Pow2Add(k, 52 - k);
      ScaleCross(s, m, p, Pow2(k), Pow2(52 - k));
    } else {
      Pow2Add(-k, 52);
      ScaleCross(s, m, Pow2(52 - k), Pow2(-k), p);
    }
  }

  lemma ScaleCross(s: int, m: int, a: int, b: int, c: int)
    requires a == b * c
    ensures (s * a) * m == (s * m) * b * c
    ensures (s * b) * m * c == (s * m) * a
    ensures (s * m) * a == (s * m) * (b * c)
  {
    assert (s * a) * m == (s * m) * (b * c);
  }

  /** The decoder, with the subnormal scale IEEE 754 prescribes, gives
      every finite pattern its IEEE 754 value, in lowest terms. */
  lemma DecodeIsIeeeValue(x: Fields)
    requires ValidFields(x) && x.exponent < 2047
    ensures DecodeFields(x, -1022).Finite?
    ensures Reduced(DecodeFields(x, -1022).value)
    ensures SameValue(DecodeFields(x, -1022).value, IeeeValue(x))
  {
    Pow2Of52();
    var sf := SignFactor(x.sign);
    var q := if x.exponent == 0 then SubnormalProduct(x, -1022) else NormalProduct(x);
    if x.exponent == 0 {
      ProductScaled(sf, -1022, x.fraction);
    } else {
      ProductScaled(sf, x.exponent - 1023, Pow2(52) + x.fraction);
    }
    assert SameValue(q, IeeeValue(x));
    assert DecodeFields(x, -1022) == Finite(Reduce(q.num, q.den));
    SameValueTransitive(Reduce(q.num, q.den), q, IeeeValue(x));
  }

  /** As written, the subnormal formula gives `f * 2^-1076`: a quarter of
      the IEEE 754 value. */
  lemma SubnormalQuarter(x: Fields)
    requires ValidFields(x) && x.exponent == 0
    ensures DecodeFields(x, -1024).Finite?
    ensures SameValue(DecodeFields(x, -1024).value, Scaled(SignFactor(x.sign) * x.fraction, -1076))
    ensures IeeeValue(x) == Scaled(SignFactor(x.sign) * x.fraction, -1074)
  {
    var q := SubnormalProduct(x, -1024);
    ProductScaled(SignFactor(x.sign), -1024, x.fraction);
    SameValueTransitive(Reduce(q.num, q.den), q, Scaled(SignFactor(x.sign) * x.fraction, -1076));
  }

  /** The corrected decoder's value, stated for every valid pattern. */
  lemma IeeeValueOf(x: Fields)
    requires ValidFields(x)
    ensures var r := DecodeFields(x, -1022);
      r.Finite? ==> SameValue(r.value, IeeeValue(x))
  {
    if x.exponent < 2047 {
      DecodeIsIeeeValue(x);
    }
  }

  /** The value of the decoder as written: the IEEE 754 value on normal
      patterns, a quarter of it on subnormal ones. */
  lemma AsWrittenValue(x: Fields)
    requires ValidFields(x)
    ensures var r := DecodeFields(x, -1024);
      r.Finite? && x.exponent != 0 ==> SameValue(r.value, IeeeValue(x))
    ensures var r, v := DecodeFields(x, -1024), IeeeValue(x);
      r.Finite? && x.exponent == 0 ==> SameValue(r.value, Rat(v.num, 4 * v.den))
  {
    if x.exponent == 0 {
      SubnormalQuarter(x);
      QuarterScale(SignFactor(x.sign) * x.fraction);
    } else if x.exponent < 2047 {
      NormalAsWritten(x);
    }
  }

  /** `m * 2^-1076` is a quarter of `m * 2^-1074`. */
  lemma QuarterScale(m: int)
    ensures var v := Scaled(m, -1074); Scaled(m, -1076) == Rat(v.num, 4 * v.den)
  {
    Pow2Add(1074, 2);
    assert Pow2(2) == 4;
  }

  /** On a normal pattern the subnormal scale plays no part. */
  lemma NormalAsWritten(x: Fields)
    requires ValidFields(x) && x.exponent != 0 && x.exponent < 2047
    ensures DecodeFields(x, -1024) == DecodeFields(x, -1022)
    ensures SameValue(DecodeFields(x, -1024).value, IeeeValue(x))
  {
    DecodeIsIeeeValue(x);
    DecodeNormal(x, -1024, NormalProduct(x));
    DecodeNormal(x, -1022, NormalProduct(x));
  }

  /** The two decoders differ exactly on the nonzero subnormal patterns. */
  lemma DecodersAgree(x: Fields)
    requires ValidFields(x)
    ensures DecodeFields(x, -1024) == DecodeFields(x, -1022) <==> x.exponent != 0 || x.fraction == 0
  {
    if x.exponent != 0 {
      if x.exponent != 2047 {
        NormalAsWritten(x);
      }
    } else if x.fraction == 0 {
      DecodeSign(x, -1024);
      DecodeSign(x, -1022);
      ReducedUnique(DecodeFields(x, -1024).value, DecodeFields(x, -1022).value);
    } else {
      var v := IeeeValue(x);
      AsWrittenValue(x);
      DecodeIsIeeeValue(x);
      assert v.num == SignFactor(x.sign) * x.fraction;
      QuarterDiffers(DecodeFields(x, -1022).value, v);
    }
  }

  /** A nonzero number is not a quarter of itself. */
  lemma QuarterDiffers(a: Rat, v: Rat)
    requires a.den > 0 && v.den > 0 && v.num != 0 && SameValue(a, v)
    ensures !SameValue(a, Rat(v.num, 4 * v.den))
  {
    var k := v.num * a.den;
    MulSign(a.den, v.num);
    assert a.num * (4 * v.den) == 4 * k;
  }
}
