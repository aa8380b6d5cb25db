/** Character classes, decimal numerals, and the integer reading that Ruby's
    `String#to_f` performs on the integer-shaped texts the fraction patterns
    capture. */
module Numerals {

  /** Ruby's `\s` class: space, tab, newline, vertical tab, form feed,
      carriage return. */
  predicate IsWs(c: char) {
    c == ' ' || c == '\t' || c == '\n' || c == '\U{B}' || c == '\U{C}' || c == '\r'
  }

  /** Ruby's `\d` class on ASCII input. */
  predicate IsDigit(c: char) {
    '0' <= c <= '9'
  }

  predicate AllWs(s: string) {
    forall i :: 0 <= i < |s| ==> IsWs(s[i])
  }

  predicate AllDigits(s: string) {
    forall i :: 0 <= i < |s| ==> IsDigit(s[i])
  }

  /** Length of the longest whitespace prefix of `s` (what a greedy `\s*`
      consumes). */
  function WsSpan(s: string): (n: nat)
    ensures n <= |s|
    ensures AllWs(s[..n])
    ensures n < |s| ==> !IsWs(s[n])
  {
    if |s| > 0 && IsWs(s[0]) then
      1 + WsSpan(s[1..])
    else 0
  }

  /** Length of the longest digit prefix of `s` (what a greedy `\d*`
      consumes). */
  function DigitSpan(s: string): (n: nat)
    ensures n <= |s|
    ensures AllDigits(s[..n])
    ensures n < |s| ==> !IsDigit(s[n])
  {
    if |s| > 0 && IsDigit(s[0]) then
      1 + DigitSpan(s[1..])
    else 0
  }

  /** A whitespace run followed by the end or by a non-whitespace character
      is exactly what `WsSpan` measures. */
  lemma {:induction false} WsSpanOf(a: string, b: string)
    requires AllWs(a)
    requires |b| == 0 || !IsWs(b[0])
    ensures WsSpan(a + b) == |a|
  {
    if |a| > 0 {
      assert (a + b)[1..] == a[1..] + b;
      WsSpanOf(a[1..], b);
    }
  }

  /** A digit run followed by the end or by a non-digit is exactly what
      `DigitSpan` measures. */
  lemma {:induction false} DigitSpanOf(a: string, b: string)
    requires AllDigits(a)
    requires |b| == 0 || !IsDigit(b[0])
    ensures DigitSpan(a + b) == |a|
  {
    if |a| > 0 {
      assert (a + b)[1..] == a[1..] + b;
      DigitSpanOf(a[1..], b);
    }
  }

  function DigitValue(c: char): nat
    requires IsDigit(c)
  {
    c as int - '0' as int
  }

  /** The natural a digit string denotes, most significant digit first; the
      empty string denotes 0, as Ruby reads it. */
  function DigitsValue(s: string): nat
    requires AllDigits(s)
  {
    if |s| == 0 then 0 else 10 * DigitsValue(s[..|s| - 1]) + DigitValue(s[|s| - 1])
  }

  function DigitChar(d: nat): (c: char)
    requires d < 10
    ensures IsDigit(c) && DigitValue(c) == d
  {
    ('0' as int + d) as char
  }

  /** `Integer#to_s` of a natural: its decimal digits, without a leading
      zero unless the number is zero. */
  function NatToString(n: nat): (r: string)
    ensures |r| > 0 && AllDigits(r)
    ensures DigitsValue(r) == n
    ensures r[0] == '0' <==> n == 0
    ensures IsNatNumeral(r, n)
  {
    if n < 10 then
      [DigitChar(n)]
    else
      var p := NatToString(n / 10);
      var r := p + [DigitChar(n % 10)];
      assert r[..|r| - 1] == p;
      r
  }

  /** The text `"-"` when `neg` holds, and the empty text otherwise. */
  function Sign(neg: bool): string {
    if neg then "-" else ""
  }

  function Signed(neg: bool, n: nat): int {
    if neg then -(n as int) else n
  }

  /** `t` is the decimal numeral of `n`: a digit run of value `n` that
      starts with `'0'` only when it is `"0"` itself. */
  predicate IsNatNumeral(t: string, n: nat) {
    |t| > 0 && AllDigits(t) && DigitsValue(t) == n && (t[0] == '0' ==> |t| == 1)
  }

  /** `t` is the decimal numeral of `i`: a minus sign exactly when `i` is
      negative, then the numeral of the magnitude. */
  predicate IsNumeral(t: string, i: int) {
    && |t| > 0 && (t[0] == '-' <==> i < 0)
    && IsNatNumeral(if i < 0 then t[1..] else t, if i < 0 then -i else i)
  }

  /** `Integer#to_s`: a minus sign on negative numbers, then the digits of
      the magnitude. */
  function IntToString(i: int): (r: string)
    ensures IsNumeral(r, i)
    ensures forall k :: 0 <= k < |r| ==> IsDigit(r[k]) || r[k] == '-'
    ensures LeadingInt(r) == i
  {
    var digits := NatToString(if i < 0 then -i else i);
    IntTextFacts(i, digits);
    Sign(i < 0) + digits
  }

  lemma IntTextFacts(i: int, digits: string)
    requires digits == NatToString(if i < 0 then -i else i)
    ensures var r := Sign(i < 0) + digits;
      && IsNumeral(r, i)
      && (forall k :: 0 <= k < |r| ==> IsDigit(r[k]) || r[k] == '-')
      && LeadingInt(r) == i
  {
    var r := Sign(i < 0) + digits;
    if i < 0 {
      assert r[1..] == digits;
    } else {
      assert r == digits;
    }
    SignedDigitsChars(Sign(i < 0), digits);
    SignedDigitsRead(i, digits);
  }

  /** A digit run that does not start with `'0'` denotes a positive
      number. */
  lemma {:induction false} NonzeroLead(t: string)
    requires |t| > 0 && AllDigits(t) && t[0] != '0'
    ensures DigitsValue(t) > 0
  {
    if |t| > 1 {
      var p := t[..|t| - 1];
      assert p[0] == t[0];
      NonzeroLead(p);
    }
  }

  /** `NatToString` writes the only numeral of `n`. */
  lemma {:induction false} NatNumeralUnique(t: string, n: nat)
    requires IsNatNumeral(t, n)
    ensures t == NatToString(n)
  {
    var p, last := t[..|t| - 1], t[|t| - 1];
    assert t == p + [last];
    if |t| == 1 {
      assert p == [];
      assert DigitChar(n) == last;
    } else {
      assert p[0] == t[0] != '0';
      NonzeroLead(p);
      var v, c := DigitsValue(p), DigitValue(last);
      NatNumeralUnique(p, v);
      NatToStringStep(v, c);
      assert DigitChar(c) == last;
    }
  }

  /** The numeral of `10 * v + c` is the numeral of `v` followed by the
      digit `c`. */
  lemma NatToStringStep(v: nat, c: nat)
    requires v > 0 && c < 10
    ensures NatToString(10 * v + c) == NatToString(v) + [DigitChar(c)]
  {
    LastDigit(v, c);
  }

  lemma LastDigit(v: nat, c: nat)
    requires c < 10
    ensures (10 * v + c) / 10 == v && (10 * v + c) % 10 == c
  {
  }

  /** `IntToString` writes the only numeral of `i`, so two numerals of the
      same number are the same text. */
  lemma NumeralUnique(t: string, i: int)
    requires IsNumeral(t, i)
    ensures t == IntToString(i)
  {
    var m := if i < 0 then -i else i;
    if i < 0 {
      NatNumeralUnique(t[1..], m);
      assert t == "-" + t[1..];
    } else {
      NatNumeralUnique(t, m);
    }
  }

  /** A numeral holds only digits and minus signs, and `to_f` reads it as
      its number. */
  lemma NumeralReads(t: string, i: int)
    requires IsNumeral(t, i)
    ensures forall k :: 0 <= k < |t| ==> IsDigit(t[k]) || t[k] == '-'
    ensures LeadingInt(t) == i
  {
    NumeralUnique(t, i);
  }

  /** `"5"` is the only numeral of five: neither a leading zero nor a
      trailing sign is allowed, and zero is written with one digit. */
  lemma NumeralExamples()
    ensures IsNumeral("5", 5) && !IsNumeral("05", 5) && !IsNumeral("5-", 5)
    ensures IsNumeral("-5", -5) && !IsNumeral("00", 0)
  {
    assert "5"[..0] == [] && "-5"[1..] == "5";
  }

  lemma NumeralsEqual(a: string, b: string, i: int)
    requires IsNumeral(a, i) && IsNumeral(b, i)
    ensures a == b
  {
    NumeralUnique(a, i);
    NumeralUnique(b, i);
  }

  lemma SignedDigitsChars(sign: string, digits: string)
    requires AllDigits(digits) && (sign == "" || sign == "-")
    ensures forall k :: 0 <= k < |sign + digits| ==> IsDigit((sign + digits)[k]) || (sign + digits)[k] == '-'
  {
    var r := sign + digits;
    forall k | 0 <= k < |r|
      ensures IsDigit(r[k]) || r[k] == '-'
    {
      if k >= |sign| {
        assert r[k] == digits[k - |sign|];
      }
    }
  }

  lemma SignedDigitsRead(i: int, digits: string)
    requires digits == NatToString(if i < 0 then -i else i)
    ensures LeadingInt(Sign(i < 0) + digits) == i
  {
    LeadingIntOf("", i < 0, digits, "");
    assert Sign(i < 0) + digits == "" + (Sign(i < 0) + (digits + ""));
  }

  /** What Ruby's `String#to_f` (or `to_i`) yields on a text that is, after
      optional leading whitespace, an optionally signed digit run: the
      signed value of that run, ignoring whatever follows it; no digits
      read as zero. */
  function LeadingInt(t: string): (r: int)
    ensures var u := t[WsSpan(t)..]; r < 0 ==> |u| > 1 && u[0] == '-' && IsDigit(u[1])
    ensures var u := t[WsSpan(t)..];
      r > 0 ==> |u| > 0 && (IsDigit(u[0]) || (|u| > 1 && u[0] == '+' && IsDigit(u[1])))
  {
    ReadSigned(t[WsSpan(t)..])
  }

  /** `LeadingInt` once the leading whitespace is gone. */
  function ReadSigned(u: string): (r: int)
    ensures r < 0 ==> |u| > 1 && u[0] == '-' && IsDigit(u[1])
    ensures r > 0 ==> |u| > 0 && (IsDigit(u[0]) || (|u| > 1 && u[0] == '+' && IsDigit(u[1])))
  {
    if |u| > 0 && (u[0] == '-' || u[0] == '+') then
      Signed(u[0] == '-', ReadDigits(u[1..]))
    else
      ReadDigits(u)
  }

  /** The value of the digit run that starts `v`: nonzero only when `v`
      starts with a digit. */
  function ReadDigits(v: string): (n: nat)
    ensures n > 0 ==> |v| > 0 && IsDigit(v[0])
  {
    DigitsValue(v[..DigitSpan(v)])
  }

  lemma ReadDigitsOf(ds: string, rest: string)
    requires AllDigits(ds)
    requires |rest| == 0 || !IsDigit(rest[0])
    ensures ReadDigits(ds + rest) == DigitsValue(ds)
  {
    DigitSpanOf(ds, rest);
    assert (ds + rest)[..|ds|] == ds;
  }

  lemma ReadNegativeOf(ds: string, rest: string)
    requires AllDigits(ds)
    requires |rest| == 0 || !IsDigit(rest[0])
    ensures ReadSigned("-" + (ds + rest)) == -(DigitsValue(ds) as int)
  {
    ReadDigitsOf(ds, rest);
    assert ("-" + (ds + rest))[1..] == ds + rest;
  }

  lemma ReadUnsignedOf(ds: string, rest: string)
    requires AllDigits(ds)
    requires |ds| > 0
    requires |rest| == 0 || !IsDigit(rest[0])
    ensures ReadSigned(ds + rest) == DigitsValue(ds)
  {
    ReadDigitsOf(ds, rest);
    assert (ds + rest)[0] == ds[0];
  }

  /** `LeadingInt` reads whitespace, an optional minus sign and a digit run,
      and stops at the first character that is not a digit. */
  lemma LeadingIntOf(lead: string, neg: bool, ds: string, rest: string)
    requires AllWs(lead) && AllDigits(ds)
    requires |rest| == 0 || !IsDigit(rest[0])
    requires neg || |ds| > 0 || |rest| == 0
    ensures LeadingInt(lead + (Sign(neg) + (ds + rest))) == Signed(neg, DigitsValue(ds))
  {
    var body := Sign(neg) + (ds + rest);
    if neg {
      assert body == "-" + (ds + rest);
      ReadNegativeOf(ds, rest);
    } else if |ds| > 0 {
      assert body == ds + rest;
      ReadUnsignedOf(ds, rest);
    } else {
      assert body == [];
    }
    if |body| > 0 {
      assert body[0] == '-' || IsDigit(body[0]);
    }
    LeadingAfterWs(lead, body);
  }

  lemma LeadingAfterWs(lead: string, body: string)
    requires AllWs(lead) && (|body| == 0 || !IsWs(body[0]))
    ensures LeadingInt(lead + body) == ReadSigned(body)
  {
    WsSpanOf(lead, body);
    assert (lead + body)[|lead|..] == body;
  }
}
