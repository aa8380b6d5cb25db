/** The three anchored patterns of `Fractional` (lib/fractional.rb:4-6) and
    the predicates `fraction?`, `single_fraction?` and `mixed_fraction?`
    built on them (lib/fractional.rb:79-89).

    Each pattern gets a decomposition datatype that mirrors its structure
    (what each group of the pattern matched) and a deterministic scanner.
    A scanner's contract says that what it returns is a well-formed
    decomposition of its input; a completeness lemma says that it finds one
    whenever one exists. Together they make the scanner accept exactly the
    strings the pattern describes. Inputs are single lines: with a newline
    in the text Ruby's `^` and `$` would anchor at line boundaries. */
module FractionText {
  import opened Wrappers
  import opened Numerals

  /** `(\d+)\/(\d+)\s*$`: the part every pattern ends with. */
  datatype Tail = Tail(num: string, den: string, trail: string)

  predicate WellFormedTail(t: Tail) {
    && |t.num| > 0 && AllDigits(t.num)
    && |t.den| > 0 && AllDigits(t.den)
    && AllWs(t.trail)
  }

  function TailString(t: Tail): string {
    t.num + ("/" + (t.den + t.trail))
  }

  /** `^\s*(\-?\d+)\/(\d+)\s*$` (lib/fractional.rb:5). */
  datatype SingleText = SingleText(lead: string, neg: bool, tail: Tail)

  predicate WellFormedSingle(p: SingleText) {
    AllWs(p.lead) && WellFormedTail(p.tail)
  }

  function SingleString(p: SingleText): string {
    p.lead + (Sign(p.neg) + TailString(p.tail))
  }

  /** `^\s*(\-?\d*)\s+(\d+)\/(\d+)\s*$` (lib/fractional.rb:6). */
  datatype MixedText = MixedText(lead: string, neg: bool, whole: string, gap: string, tail: Tail)

  predicate WellFormedMixed(m: MixedText) {
    && AllWs(m.lead)
    && AllDigits(m.whole)
    && |m.gap| > 0 && AllWs(m.gap)
    && WellFormedTail(m.tail)
  }

  function MixedString(m: MixedText): string {
    m.lead + (Sign(m.neg) + (m.whole + (m.gap + TailString(m.tail))))
  }

  /** The optional group `(?:(\d*)\s+)?` of the general pattern. */
  datatype WholePart = WholePart(digits: string, gap: string)

  /** `^\s*\-?(?:(\d*)\s+)?(\d+)\/(\d+)\s*$` (lib/fractional.rb:4). */
  datatype FractionParts = FractionParts(lead: string, neg: bool, whole: Option<WholePart>, tail: Tail)

  predicate WellFormedFraction(f: FractionParts) {
    && AllWs(f.lead)
    && (f.whole.Some? ==>
          AllDigits(f.whole.value.digits) && |f.whole.value.gap| > 0 && AllWs(f.whole.value.gap))
    && WellFormedTail(f.tail)
  }

  function WholeString(w: Option<WholePart>): string {
    match w
    case None => ""
    case Some(p) => p.digits + p.gap
  }

  function FractionString(f: FractionParts): string {
    f.lead + (Sign(f.neg) + (WholeString(f.whole) + TailString(f.tail)))
  }

  // ---------------------------------------------------------------------
  // Scanners

  /** Matches `(\d+)\/(\d+)\s*$` against the whole of `t`. */
  function ScanTail(t: string): (r: Option<Tail>)
    ensures r.Some? ==> WellFormedTail(r.value) && TailString(r.value) == t
  {
    var n := DigitSpan(t);
    if n == 0 || n == |t| || t[n] != '/' then None
    else
      var u := t[n + 1..];
      var m := DigitSpan(u);
      if m == 0 || WsSpan(u[m..]) != |u| - m then None
      else
        assert u[m..][..|u| - m] == u[m..];
        assert t == t[..n] + ("/" + (u[..m] + u[m..]));
        Some(Tail(t[..n], u[..m], u[m..]))
  }

  /** What `^\s*` consumes: the leading whitespace. */
  function LeadLength(s: string): (i: nat)
    ensures i <= |s| && AllWs(s[..i])
  {
    WsSpan(s)
  }

  /** Whether a minus sign follows the leading whitespace. */
  function HasMinus(s: string): bool {
    var rest := s[LeadLength(s)..];
    |rest| > 0 && rest[0] == '-'
  }

  /** The text after the leading whitespace and the optional minus sign. */
  function Body(s: string): (b: string)
    ensures s == s[..LeadLength(s)] + (Sign(HasMinus(s)) + b)
  {
    var rest := s[LeadLength(s)..];
    if HasMinus(s) then
      assert rest == "-" + rest[1..];
      rest[1..]
    else
      rest
  }

  /** A digit run `d` (possibly empty) followed by a non-empty whitespace run
      `g` at the start of `t`, and the text `x` after them. */
  datatype Gap = Gap(digits: string, gap: string, rest: string)

  function ScanGap(t: string): (r: Option<Gap>)
    ensures r.Some? ==> && AllDigits(r.value.digits)
                        && |r.value.gap| > 0 && AllWs(r.value.gap)
                        && t == r.value.digits + (r.value.gap + r.value.rest)
  {
    var w := DigitSpan(t);
    var after := t[w..];
    var g := WsSpan(after);
    if g == 0 then None
    else
      assert t == t[..w] + (after[..g] + after[g..]);
      Some(Gap(t[..w], after[..g], after[g..]))
  }

  /** The single-fraction pattern, scanned. */
  function ScanSingle(s: string): (r: Option<SingleText>)
    ensures r.Some? ==> WellFormedSingle(r.value) && SingleString(r.value) == s
  {
    match ScanTail(Body(s))
    case None => None
    case Some(t) => Some(SingleText(s[..LeadLength(s)], HasMinus(s), t))
  }

  /** The mixed-fraction pattern, scanned. When the whole part is empty and
      unsigned, `\s*` gives its last character back to `\s+`, as Ruby's
      backtracking does. */
  function ScanMixed(s: string): (r: Option<MixedText>)
    ensures r.Some? ==> WellFormedMixed(r.value) && MixedString(r.value) == s
  {
    match ScanGap(Body(s))
    case Some(gp) => MixedWithGap(s, gp)
    case None =>
      if !HasMinus(s) && LeadLength(s) > 0 then MixedFromLead(s) else None
  }

  function MixedWithGap(s: string, gp: Gap): (r: Option<MixedText>)
    requires Body(s) == gp.digits + (gp.gap + gp.rest)
    requires AllDigits(gp.digits) && |gp.gap| > 0 && AllWs(gp.gap)
    ensures r.Some? ==> WellFormedMixed(r.value) && MixedString(r.value) == s
  {
    match ScanTail(gp.rest)
    case None => None
    case Some(t) => Some(MixedText(s[..LeadLength(s)], HasMinus(s), gp.digits, gp.gap, t))
  }

  /** The whole part is empty: the last leading whitespace character is the
      separating run. */
  function MixedFromLead(s: string): (r: Option<MixedText>)
    requires !HasMinus(s) && LeadLength(s) > 0
    ensures r.Some? ==> WellFormedMixed(r.value) && MixedString(r.value) == s
  {
    match ScanTail(Body(s))
    case None => None
    case Some(t) => Some(MixedFromLeadParts(s, t))
  }

  function MixedFromLeadParts(s: string, t: Tail): (m: MixedText)
    requires !HasMinus(s) && LeadLength(s) > 0
    requires WellFormedTail(t) && TailString(t) == Body(s)
    ensures WellFormedMixed(m) && MixedString(m) == s
  {
    var lead := s[..LeadLength(s)];
    var l, g := lead[..|lead| - 1], lead[|lead| - 1..];
    SplitWs(lead, |lead| - 1);
    assert Sign(HasMinus(s)) + Body(s) == Body(s);
    LeadJoin(s, lead, l, g, Body(s));
    MixedText(l, false, "", g, t)
  }

  /** The text split at the end of its lead, regrouped as `MixedString`
      nests it; kept apart from `MixedFromLeadParts` so that the regrouping
      is proved without the scanner facts in scope. */
  lemma LeadJoin(s: string, lead: string, l: string, g: string, b: string)
    requires s == lead + b && lead == l + g
    ensures s == l + ("" + ("" + (g + b)))
  {
    assert "" + ("" + (g + b)) == g + b;
  }

  lemma SplitWs(a: string, k: nat)
    requires AllWs(a) && k <= |a|
    ensures a == a[..k] + a[k..] && AllWs(a[..k]) && AllWs(a[k..])
  {
    assert forall j :: 0 <= j < |a| - k ==> a[k..][j] == a[k + j];
  }

  /** The general pattern, scanned. */
  function ScanFraction(s: string): (r: Option<FractionParts>)
    ensures r.Some? ==> WellFormedFraction(r.value) && FractionString(r.value) == s
  {
    match ScanTail(Body(s))
    case Some(t) =>
      assert WholeString(None) + TailString(t) == Body(s);
      Some(FractionParts(s[..LeadLength(s)], HasMinus(s), None, t))
    case None =>
      match ScanGap(Body(s))
      case None => None
      case Some(gp) => FractionWithGap(s, gp)
  }

  function FractionWithGap(s: string, gp: Gap): (r: Option<FractionParts>)
    requires Body(s) == gp.digits + (gp.gap + gp.rest)
    requires AllDigits(gp.digits) && |gp.gap| > 0 && AllWs(gp.gap)
    ensures r.Some? ==> WellFormedFraction(r.value) && FractionString(r.value) == s
  {
    match ScanTail(gp.rest)
    case None => None
    case Some(t) =>
      assert Body(s) == (gp.digits + gp.gap) + gp.rest;
      Some(FractionParts(s[..LeadLength(s)], HasMinus(s), Some(WholePart(gp.digits, gp.gap)), t))
  }

  // ---------------------------------------------------------------------
  // The predicates of lib/fractional.rb:79-89

  predicate NoNewline(s: string) {
    '\n' !in s
  }

  predicate MatchesFraction(s: string) {
    ScanFraction(s).Some?
  }

  predicate MatchesSingle(s: string) {
    ScanSingle(s).Some?
  }

  predicate MatchesMixed(s: string) {
    ScanMixed(s).Some?
  }

  /** `Fractional.fraction?` on a string: it accepts only texts with a
      well-formed decomposition (the converse is
      `FractionGrammar.ScanFractionComplete`). */
  predicate IsFraction(s: string): (b: bool)
    requires NoNewline(s)
    ensures b ==> exists f :: WellFormedFraction(f) && FractionString(f) == s
  {
    MatchesFraction(s)
  }

  /** `Fractional.single_fraction?`: `fraction?` and the single pattern;
      it accepts only texts of the single grammar. */
  predicate IsSingleFraction(s: string): (b: bool)
    requires NoNewline(s)
    ensures b ==> exists p :: WellFormedSingle(p) && SingleString(p) == s
  {
    IsFraction(s) && MatchesSingle(s)
  }

  /** `Fractional.mixed_fraction?`: `fraction?` and the mixed pattern; it
      accepts only texts of the mixed grammar. */
  predicate IsMixedFraction(s: string): (b: bool)
    requires NoNewline(s)
    ensures b ==> exists m :: WellFormedMixed(m) && MixedString(m) == s
  {
    IsFraction(s) && MatchesMixed(s)
  }
}
