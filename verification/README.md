# fractional, modelled in Dafny

A model of the class methods of `Fractional` (lib/fractional.rb), the Ruby
library that converts between numbers and fraction texts such as `"3/4"`,
`"-3/4"` and `"1100 7/8"`. It covers four pieces of that class:

- **Recognition.** The three anchored patterns `@@fractions`,
  `@@single_fraction` and `@@mixed_fraction`, and the predicates
  `fraction?`, `single_fraction?` and `mixed_fraction?` built on them.
  Each pattern is a hand-written scanner over `seq<char>` with a
  decomposition datatype that records what each group matched.
  Soundness is part of each scanner's contract. Completeness is a lemma.
  Together they prove that each pattern accepts exactly the strings of its
  grammar.
- **Reading.** The fraction branches of `Fractional.to_f`. They cover the
  mixed branch, with its `scan` captures and its sign rule, and the single
  branch, with its `split("/")`. The division and addition are carried out
  exactly on rationals rather than in double precision.
- **Decoding.** `float_to_rational`, the IEEE 754 binary64 decoder. It
  spells the 64-bit pattern in binary, cuts it into sign, exponent and
  fraction fields, reads them with `to_i(2)`, and builds the value with
  `Rational` arithmetic. `Float64.DecodeAsWritten` is the code as written,
  which scales subnormal patterns by `2^-1024`. `Float64.Decode` is the
  corrected decoder, with the scale `2^-1022` IEEE 754 prescribes (see
  "## Findings").
- **Writing.** `Fractional.to_s` without `:to_nearest`. A number whose
  integer part is zero is written as `"n/d"`. A nonzero integer is written
  as its digits. Any other number is written as `"w n/d"`. `Render.ToS`
  writes the value the as-written decoder gives a bit pattern, as the code
  does.

Files, one module each:

- `wrappers.dfy`: `Option` and `Result`.
- `numerals.dfy`: Ruby's `\s` and `\d` classes, greedy spans, decimal
  numerals, `Integer#to_s`, and the integer reading `String#to_f` performs
  on captured texts.
- `rationals.dfy`: exact rationals, with `Gcd`, reduction to lowest terms,
  uniqueness of lowest terms, truncation and `Rational#to_s`.
- `fraction_text.dfy`: the three patterns, their scanners and the three
  predicates.
- `fraction_grammar.dfy`: completeness of the scanners, the patterns
  described as grammars, and how the three patterns relate.
- `fraction_shape.dfy`: the character-level shape every fraction text has,
  and the recognition examples of the tests.
- `fraction_value.dfy`: `to_f` on fraction texts.
- `float64.dfy`: `float_to_rational`, and the value IEEE 754 assigns to a
  bit pattern.
- `render.dfy`: `to_s`, and the proof that `to_f` reads back what `to_s`
  writes.

Non-finite results are kept apart from numbers by a tagged datatype
(`Exact`: `Finite`, `Undefined`, `PosInf`, `NegInf`). These tags stand for
the results of IEEE 754 division by zero in `to_f`, and for the sentinels
`Rational(0,0)` and `Rational(±1,0)` of `float_to_rational`.

Reading `to_f`'s code, rather than its tests, gives some behaviours that
are easy to miss. The model proves each of them:

- `" 3/4"` reads as `-3/4`. The mixed pattern matches it with an empty
  whole part, because Ruby's `\s*` gives its last character back to `\s+`.
  A whole part that is not positive negates the result.
- `"0 1/2"` reads as `-1/2`.
- The `fraction? and ...` guard of `single_fraction?` and
  `mixed_fraction?` never changes their answer.

Some tests and the code disagree, and the model follows the code in each
case:

- The newer library's tests accept signed denominators
  (spec/fractional_spec.rb:97-100). The single pattern at
  lib/fractional.rb:5 accepts none.
- One test expects `single_fraction?("1 11/12")` to be true
  (spec/fractional_class_methods_spec.rb:182-184). The single pattern
  refuses it, and `FractionShape.MixedIsNotSingle` states that refusal.

## Model

| member | source | states |
|---|---|---|
| Numerals.WsSpan | lib/fractional.rb:4 | what a greedy `\s*` consumes: a prefix of whitespace that is not followed by whitespace |
| Numerals.DigitSpan | lib/fractional.rb:4 | what a greedy `\d*` consumes: a prefix of digits that is not followed by a digit |
| Numerals.NatToString | lib/fractional.rb:59 | `Integer#to_s` of a natural: nonempty decimal digits denoting the number, with no leading zero unless the number is zero |
| Numerals.IntToString | lib/fractional.rb:52 | `Integer#to_s` writes the numeral of the number: a minus sign exactly for negative numbers, then the digits of the magnitude with no leading zero; the text reads back as the number |
| Numerals.NatNumeralUnique | lib/fractional.rb:52 | a digit run of a given value with no leading zero is exactly the text `Integer#to_s` writes for it |
| Numerals.NumeralUnique | lib/fractional.rb:52 | every numeral of a number, sign included, is the text `Integer#to_s` writes, so two numerals of one number are the same text |
| Numerals.NumeralExamples | lib/fractional.rb:52 | `"5"` and `"-5"` are numerals, while `"05"`, `"5-"` and `"00"` are not |
| Numerals.NumeralReads | lib/fractional.rb:52 | a numeral holds only digits and minus signs and reads back as its number |
| Numerals.LeadingInt | lib/fractional.rb:30-32 | `String#to_f` on a captured text is nonzero only when, after the leading whitespace, a digit or a sign and a digit follow, and negative only after a minus sign |
| Numerals.LeadingIntOf | lib/fractional.rb:32 | `String#to_f` on a captured text reads leading whitespace, an optional minus and a digit run, stops at the first non-digit, and reads no digits as zero |
| Rationals.Reduce | lib/fractional.rb:115 | `Rational` keeps a number in lowest terms with a positive denominator, of the same value, never with a larger denominator |
| Rationals.ReducedUnique | lib/fractional.rb:115 | two numbers in lowest terms of the same value are identical |
| Rationals.RatToString | lib/fractional.rb:99 | `Rational#to_s` writes the numeral of the numerator, one slash and the numeral of the denominator, with no character other than digits, minus signs and the slash |
| Rationals.FractionTextUnique | lib/fractional.rb:99 | a text that spells a numerator and a positive denominator as numerals around a slash is exactly what `Rational#to_s` writes |
| Rationals.Trunc | lib/fractional.rb:46 | `truncate` rounds toward zero: the magnitude of the result is the whole part of the magnitude, and its sign is that of the number |
| FractionText.IsFraction | lib/fractional.rb:79-81 | `fraction?` accepts only texts that have a well-formed decomposition under the general pattern; `FractionGrammar.ScanFractionComplete` gives the converse |
| FractionText.IsSingleFraction | lib/fractional.rb:83-85 | `single_fraction?` accepts only texts that have a well-formed decomposition under the single pattern |
| FractionText.IsMixedFraction | lib/fractional.rb:87-89 | `mixed_fraction?` accepts only texts that have a well-formed decomposition under the mixed pattern |
| FractionText.ScanTail | lib/fractional.rb:4-6 | the `(\d+)\/(\d+)\s*$` part every pattern ends with: whatever the scanner returns is well-formed and spells its input |
| FractionText.ScanFraction | lib/fractional.rb:4 | whatever the general scanner returns is a well-formed decomposition (lead, sign, optional whole part, tail) that spells its input |
| FractionText.ScanSingle | lib/fractional.rb:5 | whatever the single scanner returns is a well-formed decomposition that spells its input |
| FractionText.ScanMixed | lib/fractional.rb:6 | whatever the mixed scanner returns is a well-formed decomposition that spells its input, including the backtracking case with an empty whole part |
| FractionGrammar.ScanFractionComplete | lib/fractional.rb:4 | the general scanner accepts every text that has a well-formed decomposition |
| FractionGrammar.ScanSingleComplete | lib/fractional.rb:5 | the single scanner accepts every text that has a well-formed decomposition |
| FractionGrammar.ScanMixedComplete | lib/fractional.rb:6 | the mixed scanner accepts every text that has a well-formed decomposition |
| FractionGrammar.FractionGrammarExact | lib/fractional.rb:79-81 | `fraction?` holds exactly of the texts `ws* '-'? (digit* ws+)? digit+ '/' digit+ ws*` |
| FractionGrammar.SingleGrammarExact | lib/fractional.rb:5 | the single pattern matches exactly `ws* '-'? digit+ '/' digit+ ws*` |
| FractionGrammar.MixedGrammarExact | lib/fractional.rb:6 | the mixed pattern matches exactly `ws* '-'? digit* ws+ digit+ '/' digit+ ws*` |
| FractionGrammar.FractionIsSingleOrMixed | lib/fractional.rb:4-6 | the general pattern matches a text if and only if the single or the mixed pattern does |
| FractionGrammar.GuardsAreRedundant | lib/fractional.rb:83-89 | `single_fraction?` and `mixed_fraction?` answer as their own pattern does, and together they cover `fraction?` |
| FractionGrammar.SingleAlsoMixed | lib/fractional.rb:5-6 | a single fraction also matches the mixed pattern if and only if it has leading whitespace and no minus sign |
| FractionGrammar.SingleMixedExclusive | lib/fractional.rb:5-6 | without leading whitespace, no text matches both the single and the mixed pattern |
| FractionShape.FractionHasOneSlash | lib/fractional.rb:4 | every accepted text is whitespace, digits and minus signs around exactly one slash, with a digit on each side of the slash |
| FractionShape.RejectedExamples | spec/fractional_class_methods_spec.rb:146-169 | `fraction?` refuses `"2.3"`, `"2/3 9/5"`, `"n/a"`, `"3a/4"`, `"a2/3"`, `"1 2/3a"`, `"2 /2"`, `"1/ 3"`, `"1  2/  3"` and `"1 2    /3"` |
| FractionShape.SingleAccepted | lib/fractional.rb:83-85 | every text of the single grammar is accepted by `fraction?` and by `single_fraction?` |
| FractionShape.MixedAccepted | lib/fractional.rb:87-89 | every text of the mixed grammar is accepted by `fraction?` and by `mixed_fraction?` |
| FractionShape.AcceptsSimple | spec/fractional_class_methods_spec.rb:174-176 | `"3/4"` is a single fraction |
| FractionShape.AcceptsNegativeSimple | spec/fractional_class_methods_spec.rb:178-180 | `"-3/4"` is a single fraction |
| FractionShape.AcceptsMixed | spec/fractional_class_methods_spec.rb:189-191 | `"1 11/12"` is a mixed fraction |
| FractionShape.AcceptsNegativeMixed | spec/fractional_class_methods_spec.rb:193-195 | `"-1 11/12"` is a mixed fraction |
| FractionShape.AcceptsNegativeMixedFraction | spec/fractional_class_methods_spec.rb:137-139 | `"-6 2/9"` is a fraction |
| FractionShape.AcceptsWideGap | spec/fractional_class_methods_spec.rb:141-142 | `"1  2/3"` is a fraction |
| FractionShape.AcceptsWiderGap | spec/fractional_class_methods_spec.rb:143 | `"3               1/2"` is a fraction |
| FractionShape.RefusesSimpleAsMixed | spec/fractional_class_methods_spec.rb:197-199 | `"3/4"` is not a mixed fraction |
| FractionShape.MixedIsNotSingle | lib/fractional.rb:5 | `"1 11/12"` is not a single fraction |
| FractionValue.Quotient | lib/fractional.rb:37 | `n / d` without rounding: for a nonzero `d`, the exact quotient in lowest terms; for a zero `d`, an infinity of the sign of `n`, or no number when `n` is zero as well |
| FractionValue.Negate | lib/fractional.rb:34 | unary minus keeps the denominator, negates the numerator, swaps the infinities and keeps NaN |
| FractionValue.MixedValue | lib/fractional.rb:32-34 | the mixed value is `(abs(w) * d + n) / d`, negated unless the whole part `w` is positive, with the non-finite results of a zero denominator |
| FractionValue.Split | lib/fractional.rb:36 | `split` gives at least one field, and no field contains the separator |
| FractionValue.SplitJoin | lib/fractional.rb:36 | joining the fields of a split with the separator gives back the text |
| FractionValue.SingleFields | lib/fractional.rb:36 | a single fraction splits at its slash into the signed numerator text and the denominator text |
| FractionValue.WholeRead | lib/fractional.rb:30 | the captured whole, numerator and denominator texts read as the signed whole part and the two digit runs |
| FractionValue.ToF | lib/fractional.rb:26-43 | `to_f` yields a value exactly for the texts `fraction?` accepts |
| FractionValue.SingleToF | lib/fractional.rb:35-37 | a single fraction without leading whitespace, or with a minus sign, reads as its signed numerator over its denominator |
| FractionValue.MixedToF | lib/fractional.rb:29-34 | a mixed fraction reads as its fraction plus the magnitude of its whole part, negated unless the whole part is positive; padding and the separating run play no part |
| FractionValue.LeadingSpaceNegates | lib/fractional.rb:29-34 | a single fraction with leading whitespace and no minus sign reads as the negation of its quotient |
| FractionValue.MixedWhitespaceInvariant | lib/fractional.rb:30 | two mixed fractions that differ only in padding and in the separating run read the same |
| FractionValue.HalfValue | spec/fractional_class_methods_spec.rb:5-7 | `"1/2"` reads as 1/2 |
| FractionValue.MixedHalvesValue | spec/fractional_class_methods_spec.rb:9-11 | `"1 2/4"` reads as 3/2 |
| FractionValue.MixedEighthsValue | spec/fractional_class_methods_spec.rb:21-23 | `"1100 7/8"` reads as 8807/8 |
| FractionValue.NegativeMixedValue | spec/fractional_class_methods_spec.rb:25-27 | `"-10 1/2"` reads as -21/2 |
| FractionValue.NegativeSingleValue | spec/fractional_class_methods_spec.rb:29-31 | `"-1/64"` reads as -1/64 |
| FractionValue.RepeatedSpaceValue | spec/fractional_class_methods_spec.rb:33-35 | `"6 5/8"` and `"6  5/8"` read the same |
| FractionValue.LeadingSpaceValue | lib/fractional.rb:29-34 | `" 3/4"` reads as -3/4 |
| FractionValue.ZeroWholeValue | lib/fractional.rb:34 | `"0 1/2"` reads as -1/2 |
| Float64.BitString | lib/fractional.rb:111 | `unpack("B*")`: exactly `width` characters, each `0` or `1` |
| Float64.BinaryValue | lib/fractional.rb:113 | `to_i(2)` of a binary text is below two to the power of its length |
| Float64.BinaryOfBitString | lib/fractional.rb:111-113 | reading back the bits of `n` gives `n` modulo `2^width` |
| Float64.BitStringOfBinary | lib/fractional.rb:111-113 | spelling out what a binary text denotes gives the text |
| Float64.BitStringSplit | lib/fractional.rb:111 | the high bits of a spelling are the spelling of the number with its low bits dropped |
| Float64.Unpack | lib/fractional.rb:111-113 | the fields cut from the 64-bit spelling are a 1-bit sign, an 11-bit exponent and a 52-bit fraction that pack back into the pattern |
| Float64.UnpackPack | lib/fractional.rb:111-113 | cutting the pattern of any valid field triple gives back the triple |
| Float64.DecodeAsWritten | lib/fractional.rb:105-119 | `float_to_rational` as written: NaN patterns give no number, the two infinities give the two sentinels, and a finite result is in lowest terms, negative exactly when the sign bit is set and the number is nonzero, zero exactly for the two zero patterns, equal to the IEEE 754 value on normal patterns and to a quarter of it on subnormal ones |
| Float64.Decode | lib/fractional.rb:105-119 | the corrected decoder, scaling subnormals by `2^-1022` where line 117 uses `2^-1024`: the same sentinels, signs and zeros, and every finite pattern decodes to its IEEE 754 value |
| Float64.DecodersAgree | lib/fractional.rb:114-117 | the decoder as written and the corrected one agree exactly on the patterns that are not nonzero subnormals |
| Float64.DecodeSign | lib/fractional.rb:112-117 | the sign and zeroness of the result under either subnormal scale |
| Float64.DecodeIsIeeeValue | lib/fractional.rb:114-115 | every finite pattern decodes to the value section 3.4 of IEEE 754-2008 gives it: its integer significand times `2^(e - 1075)` |
| Float64.GradualUnderflow | lib/fractional.rb:114-117 | a pattern below `2^53` is worth the pattern times `2^-1074`, so the subnormals continue the normal numbers without a gap |
| Float64.SubnormalQuarter | lib/fractional.rb:116-117 | as written, a subnormal decodes to its fraction times `2^-1076`, a quarter of its IEEE 754 value |
| Float64.SmallestSubnormalAsWritten | lib/fractional.rb:117 | the pattern `1` decodes to `2^-1076` as written and to `2^-1074` under IEEE 754 |
| Render.PartString | lib/fractional.rb:95-101 | the fraction text writes the number as a fraction in lowest terms, numerator and denominator as numerals, with no space |
| Render.PartStringUnique | lib/fractional.rb:95-101 | any text that writes the number as numerals of a fraction in lowest terms is the fraction text |
| Render.RenderRational | lib/fractional.rb:45-62 | `to_s` writes a number whose integer part is zero as a fraction in lowest terms without a space; a number without a fractional part as the numeral of its integer part; any other number as the numeral of its integer part, one space and the magnitude of its fractional part in lowest terms; numerators, denominators and integer parts are numerals without leading zeros |
| Render.RenderUnique | lib/fractional.rb:45-62 | the three shapes pin the text: any text of the shape `to_s` gives a number is the text it writes |
| Render.FractionalPart | lib/fractional.rb:91-93 | `value - value.truncate` is smaller than one in magnitude, has the sign of the number, and adds back to the number |
| Render.MergeBranchUnreachable | lib/fractional.rb:54-60 | the fraction text is never `"1"` or `"0"`, so a number with a fractional part is always written as whole part, space, fraction |
| Render.ToS | lib/fractional.rb:45-62 | `to_s` fails with `FloatDomainError` exactly on NaN and the infinities, and otherwise writes the value `float_to_rational` gives the double as written |
| Render.SingleRoundTrip | lib/fractional.rb:48-49 | a number whose integer part is zero is written as a single fraction that `to_f` reads back as the number |
| Render.MixedRoundTrip | lib/fractional.rb:50-60 | a number with a nonzero integer part and a nonzero fractional part is written as a mixed fraction that `to_f` reads back as the number |
| Render.IntegerRender | lib/fractional.rb:51-52 | a nonzero integer is written as a text that reads back as the integer |
| Render.RenderRoundTrip | lib/fractional.rb:45-62 | `to_f` reads back every written number except a nonzero integer as itself, in lowest terms |
| Render.ToSRoundTrip | lib/fractional.rb:45-62 | the text `to_s` writes for a finite double whose decoded value is not a nonzero integer reads back under `to_f` as that value |
| Render.ToSRoundTripIeee | lib/fractional.rb:45-62 | for a finite double that is not a nonzero subnormal and not a nonzero integer, `to_f` reads back the double's IEEE 754 value from what `to_s` writes |
| Render.SubnormalWrittenQuarter | lib/fractional.rb:99-117 | `to_s` of a nonzero subnormal double writes a text that `to_f` reads back as a quarter of the double's IEEE 754 value, never as the double |
| Render.HalfRendered | spec/fractional_class_methods_spec.rb:40-42 | 1/2 is written `"1/2"` |
| Render.OneAndAHalfRendered | spec/fractional_class_methods_spec.rb:44-46 | 3/2 is written `"1 1/2"` |
| Render.EighthsRendered | spec/fractional_class_methods_spec.rb:48-50 | 8807/8 is written `"1100 7/8"` |
| Render.IntegerRendered | spec/fractional_class_methods_spec.rb:52-54 | 1100 is written `"1100"` |
| Render.NegativeEighthsRendered | spec/fractional_class_methods_spec.rb:73-75 | -8807/8 is written `"-1100 7/8"` |
| Render.ZeroRendered | lib/fractional.rb:48-49 | zero is written `"0/1"` |
| Render.NegativeSingleRendered | spec/fractional_class_methods_spec.rb:77-79 | -7/8 is written `"-7/8"` |

## Left out

- The arithmetic operators (lib/fractional.rb:20-24). They compute in double precision and wrap the result in a new instance.
- `round_to_nearest_fraction` (lib/fractional.rb:64-75). It divides and rounds doubles.
- The `:to_nearest` path of `to_s` and `fractional_part_to_string` (lib/fractional.rb:54, lib/fractional.rb:96-97), for the same reason.
- The decimal branch of `to_f` (lib/fractional.rb:39). It is `String#to_f` on a decimal, or `Float#to_f`. `FractionValue.ToF` returns `None` there.
- The instance wrapper (lib/fractional.rb:8-18). It only stores a value and delegates.
- lib/deprecated.rb. It only prints warnings and delegates to methods of a newer library that is not part of this model.
- The repeating-decimal recovery and the object API tested in spec/fractional_spec.rb. That implementation is not part of this model.
- Rounding. The model reads, divides and adds exactly where `to_f` computes in double precision. `String#to_f` rounds each captured digit run to the nearest double, so `"9007199254740993/1"` reads as `2^53` in Ruby but exactly here. A digit run of about 310 digits or more reads as `Infinity` in Ruby, where `Numerals.LeadingInt` reads the exact integer. A quotient with no exact double comes out exact here, not rounded.
- `to_s` is stated on a rational. Truncation and `value - value.truncate` are exact on doubles, and the fraction text comes from `float_to_rational`, so `Render.ToS` renders the value the as-written decoder gives the bit pattern. That value is the double's exact value except on the nonzero subnormals, where it is a quarter of it. A subnormal reaches `float_to_rational` only through a double below one in magnitude, since the fractional part of a double of magnitude one or more is a multiple of `2^-52`.
- Input containing a newline. Ruby's `^` and `$` anchor at line boundaries, so the predicates and `FractionValue.ToF` require newline-free text.
- Non-ASCII input.
- FractionValue.Split: does not drop trailing empty fields as Ruby's `split` does. It is only applied to single fractions, whose last field is never empty.
- Ruby's `Rational(0,0)` and `Rational(±1,0)` raise `ZeroDivisionError` when evaluated. `Float64.DecodeAsWritten` and `Float64.Decode` return the tags `Undefined`, `PosInf` and `NegInf` in their place.
- `Rational` internals. A rational is a pair of integers, and `Rationals.Reduce` gives its lowest terms.
- `Rational#to_s` follows current Ruby and always writes `"n/d"`. Ruby 1.8 omitted `"/1"`. This matters for zero: `to_s(0.0)` reaches `float_to_rational(0.0).to_s` through lib/fractional.rb:49, and the model writes `"0/1"` (`Render.ZeroRendered`) where Ruby 1.8 wrote `"0"`. It also matters for the branch that `Render.MergeBranchUnreachable` shows is never taken.

## Findings

| source | as written | input that shows it | evidently intended | confidence | as-written member | corrected member |
|---|---|---|---|---|---|---|
| lib/fractional.rb:117 | subnormal patterns are scaled by `2**(-1024)`, giving `f / 2^1076` | bit pattern `0x0000000000000001` (the double `5.0e-324`) decodes to `2^-1076`, and `to_s` of every nonzero subnormal writes a quarter of its value | the scale of the smallest normal exponent, `2**(-1022)`, giving `f / 2^1074`, as section 3.4 of IEEE 754-2008 specifies | not executed | Float64.SmallestSubnormalAsWritten | Float64.GradualUnderflow |

`Render.ToS` follows the code as written.
`Float64.DecodersAgree` and `Render.ToSRoundTripIeee` state where the
corrected decoder and the code agree.
