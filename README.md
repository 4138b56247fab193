# Fraction — a verified model

`Fraction` is a C# class for exact fractions. It holds a numerator `N` and a
denominator `D`. It has a checking constructor, a parser for the `"n/d"` text
form, a greatest-common-divisor helper that scans downwards, `_Simplify`, which
reduces a pair to lowest terms with the sign on the numerator, and an in-place
`Simplify()`. It has the arithmetic operators `+ - * /`, unary `-`, `++` and
`--`, an `Equals` that compares normal forms, the `==` and `!=` operators, and
`ToString`.

The model has four modules:

- `Divisibility` (`divisibility.dfy`) defines divisibility, absolute value and
  Euclid's `Gcd`, the reference definition the scanning GCD is proved against.
  It also proves the facts about `Gcd` that the rest relies on: it divides both
  arguments, it is the greatest common divisor, it scales with a common
  factor, and Euclid's lemma holds.
- `Numerals` (`numerals.dfy`) reads numerals the way `double.TryParse` does
  for the inputs modelled here: surrounding white space, an optional sign,
  digits, and an optional decimal point followed by digits. It also writes an
  integer the way `"{0}"` prints an integral double.
- `Splitting` (`split.dfy`) models `String.Split` with
  `StringSplitOptions.RemoveEmptyEntries`.
- `Fractions` (`fraction.dfy`) holds the pair datatype `Frac` and its meaning
  as a rational (`Value`). It also holds:
  - the specification function `Normalize`, with the proof that a normal form
    is unique;
  - the imperative GCD scan `LinearGcd` and the step-by-step `SimplifyPair`,
    both proved against that specification;
  - the operators, as functions over `Frac` that return a `Result`;
  - the parser `FromString` and the printer `ToString`;
  - the class `Fraction`, whose fields `N` and `D` are updated in place by
    `Simplify()`, with `Equals` and the `==` and `!=` operators over possibly
    null references.

Exceptions become `Failure` values: `ArgumentException` is `InvalidArgument`
and `DivideByZeroException` is `DivideByZero`. `N` and `D` are unbounded
integers here, while the class stores doubles. Every value the modelled
operations produce from integral inputs is integral: the parser rejects
non-integral numerals, and the operators only add, multiply and divide exactly
by a common divisor.

The parser passes `RemoveEmptyEntries` (Fraction/Fraction.cs:73), so empty
pieces are dropped and `"1//2"` and `"/1/2/"` both read as 1/2
(`ExampleParseEmptyPiece`). Unary minus builds its result through the checking
constructor (Fraction/Fraction.cs:383), so negating a pair with a zero
denominator fails. `Negate` models that.

## Model

| member | source | states |
|---|---|---|
| Divisibility.GcdDividesBoth | Fraction/Fraction.cs:182-199 | the reference GCD of two magnitudes, not both zero, is positive and divides both |
| Divisibility.CommonDivisorDividesGcd | Fraction/Fraction.cs:182-199 | every common divisor divides the reference GCD |
| Divisibility.GcdGreatest | Fraction/Fraction.cs:190-195 | no common divisor exceeds the reference GCD, so a downward scan's first hit is the GCD |
| Divisibility.GcdScale | Fraction/Fraction.cs:223-229 | Gcd(k*a, k*b) == k*Gcd(a, b), which is why dividing by the GCD leaves coprime parts |
| Divisibility.GcdOfReduced | Fraction/Fraction.cs:223-229 | dividing both magnitudes by their GCD leaves a coprime pair |
| Divisibility.CoprimeDividesFactor | Fraction/Fraction.cs:212-238 | Euclid's lemma, which gives the uniqueness of the reduced form |
| Divisibility.GcdCommutes | Fraction/Fraction.cs:182-199 | the GCD does not depend on argument order |
| Fractions.LinearGcd | Fraction/Fraction.cs:182-199 | the downward scan from min(abs n, abs d) returns the greatest common divisor when both are nonzero and 1 when either is zero; never less than 1 |
| Fractions.ScanHitIsGcd | Fraction/Fraction.cs:190-195 | the first i of the scan that divides both magnitudes equals Euclid's Gcd |
| Fractions.Fraction.GcdOfFields | Fraction/Fraction.cs:177-180 | GCD() of the current N and D is the greatest common divisor of their magnitudes, or 1 when one of them is zero |
| Fractions.Normalize | Fraction/Fraction.cs:212-238 | fails with an invalid argument exactly when d is 0; 0/d gives 0/1; otherwise the result is in lowest terms with a positive denominator and cross-multiplies equal to n/d |
| Fractions.SimplifyPair | Fraction/Fraction.cs:212-238 | the step-by-step _Simplify (GCD scan, division, sign flip) computes exactly Normalize |
| Fractions.NormalUnique | Fraction/Fraction.cs:212-238 | two normal pairs that cross-multiply equal are identical, so the reduced form is canonical |
| Fractions.NormalizeCanonical | Fraction/Fraction.cs:212-238 | pairs denoting the same rational simplify to the same pair (2/4 and 1/2 both give 1/2) |
| Fractions.NormalizeKeepsNormal | Fraction/Fraction.cs:212-238 | a pair already in lowest terms with positive denominator simplifies to itself |
| Fractions.NormalizeIdempotent | Fraction/Fraction.cs:205-238 | simplifying twice gives the same as simplifying once |
| Fractions.Fraction.Simplify | Fraction/Fraction.cs:205-210 | Simplify() overwrites N and D with the normal form of the old pair, which is in lowest terms and denotes the same rational; a zero denominator throws and leaves the fields unchanged |
| Fractions.Fraction.constructor | Fraction/Fraction.cs:20-27 | a nonzero denominator stores numerator and denominator as given, without simplifying |
| Fractions.Fraction.Create | Fraction/Fraction.cs:20-27 | construction fails with an invalid argument exactly when the denominator is 0, and otherwise yields a new object holding the pair unchanged |
| Fractions.Fraction.CreateFromString | Fraction/Fraction.cs:36-41 | construction from a string fails with an invalid argument exactly when FromString fails, and otherwise yields a new object holding FromString's normal pair; the implicit conversion from a string (Fraction/Fraction.cs:279-280) is this same constructor |
| Fractions.FromRatio | Fraction/Fraction.cs:20-27 | the pair-level constructor: fails exactly on a zero denominator and otherwise keeps both parts as given |
| Fractions.Add | Fraction/Fraction.cs:353-371 | fails exactly when a denominator is 0; otherwise the result denotes the sum; a zero operand returns the other operand unsimplified; otherwise the result is in lowest terms |
| Fractions.Subtract | Fraction/Fraction.cs:386-404 | fails exactly when a denominator is 0; otherwise the result denotes the difference; a zero lhs gives -rhs.N/rhs.D and a zero rhs gives lhs, unsimplified; otherwise lowest terms |
| Fractions.Multiply | Fraction/Fraction.cs:414-425 | fails exactly when a denominator is 0; otherwise the result is in lowest terms and denotes the product |
| Fractions.Divide | Fraction/Fraction.cs:439-453 | fails when a denominator is 0 (invalid argument, checked first) or the divisor is zero (division by zero), and only then; otherwise lowest terms and denotes the quotient |
| Fractions.MultiplicativeInverse | Fraction/Fraction.cs:414-453 | for a nonzero a, a * (1/1 / a) is exactly 1/1 |
| Fractions.Negate | Fraction/Fraction.cs:382-383 | unary minus keeps D, denotes the negated rational, and fails on a zero denominator |
| Fractions.Increment | Fraction/Fraction.cs:374-375 | ++ fails exactly on a zero denominator; otherwise it is in lowest terms and denotes the value plus 1 |
| Fractions.Decrement | Fraction/Fraction.cs:407-408 | -- fails exactly on a zero denominator; otherwise it is in lowest terms and denotes the value minus 1 |
| Fractions.NormalFormsMatch | Fraction/Fraction.cs:335-342 | simplifying both operands fails exactly when a denominator is 0; otherwise the normal forms match exactly when the two pairs denote the same rational |
| Fractions.NormalFormsMatchValue | Fraction/Fraction.cs:335-342 | two valid pairs have equal normal forms if and only if they denote the same rational |
| Fractions.Fraction.Equals | Fraction/Fraction.cs:324-343 | null is unequal; the same object is equal; two distinct objects fail if either denominator is 0 and are otherwise equal exactly when their values are equal |
| Fractions.Fraction.OpEquality | Fraction/Fraction.cs:307-317 | two nulls are equal, a null and an object are not, otherwise the result is lhs.Equals(rhs) |
| Fractions.Fraction.OpInequality | Fraction/Fraction.cs:287-288 | != fails when == fails and otherwise is its negation |
| Fractions.FromString | Fraction/Fraction.cs:69-95 | every failure is an invalid argument; every success is in lowest terms with a positive denominator |
| Fractions.FromStringMeaning | Fraction/Fraction.cs:73-94 | parsing succeeds exactly when the text splits into two pieces that are both numerals, both integral, with a nonzero denominator; a success then denotes the numerator numeral divided by the denominator numeral |
| Fractions.FromStringOfTwoNumerals | Fraction/Fraction.cs:73-94 | two slash-free integral numerals joined by one '/' parse to the simplification of their values |
| Fractions.ToStringRoundTrip | Fraction/Fraction.cs:484-492 | printing a pair whose denominator is not 0 or 1 and parsing the text back gives the pair's normal form |
| Fractions.ToStringRoundTripNormal | Fraction/Fraction.cs:484-492 | a pair in lowest terms with denominator other than 1 reads back as itself |
| Fractions.ToStringWholeNotReadable | Fraction/Fraction.cs:486-487 | a pair with denominator 1 prints without a '/', and the parser rejects that text |
| Fractions.ToStringWholeReadsAsInteger | Fraction/Fraction.cs:486-487 | the text printed for a pair with denominator 1 is an integral numeral whose value is the numerator |
| Fractions.ExampleParseReduces | Fraction/Fraction.cs:69-95 | "2/4" reads as 1/2 |
| Fractions.ExampleParseEmptyPiece | Fraction/Fraction.cs:73 | "1//2" reads as 1/2, because empty pieces are dropped |
| Fractions.ExampleParseSpaces | Fraction/Fraction.cs:80-84 | " -6 / 8 " reads as -3/4: white space around a numeral is skipped |
| Fractions.ExampleParseIntegralDecimal | Fraction/Fraction.cs:86-90 | "4.0" + "/" + "2" is accepted because 4.0 is integral, and reads as 2/1 |
| Fractions.ExampleParseNotIntegral | Fraction/Fraction.cs:86-87 | "1.5" + "/" + "2" is refused with an invalid argument |
| Fractions.ExampleParseZeroDenominator | Fraction/Fraction.cs:94 | "1/0" is refused with an invalid argument by the simplification |
| Fractions.ExampleParseWrongPartCount | Fraction/Fraction.cs:77-78 | "1/2/3" and "3" are refused: they do not split into exactly two pieces |
| Fractions.ExampleHalfPlusHalf | Fraction/Fraction.cs:353-371 | 1/2 + 1/2 is 1/1, printed "1" |
| Fractions.ExampleTwoQuarters | Fraction/Fraction.cs:212-238 | 2/4 simplifies to 1/2, printed "1/2" |
| Fractions.ExampleSignMoves | Fraction/Fraction.cs:231-235 | 3/-6 simplifies to -1/2: the sign moves to the numerator |
| Fractions.ExampleZeroShortcuts | Fraction/Fraction.cs:361-365 | 2/4 + 0/1 returns 2/4 unsimplified, and 0/3 - 2/4 returns -2/4 |
| Fractions.ExampleErrors | Fraction/Fraction.cs:441-448 | dividing by a zero fraction is a division by zero; a zero denominator is reported first, as an invalid argument |
| Fractions.ExampleIncrement | Fraction/Fraction.cs:374-375 | (3/2)++ is 5/2 |
| Numerals.ParseIntToString | Fraction/Fraction.cs:487-491 | the text "{0}" gives for an integer reads back as an integral numeral of that same integer |
| Numerals.IntToStringHasNoSlash | Fraction/Fraction.cs:491 | a printed integer is nonempty and holds no '/', so the two halves of "N/D" split apart again |
| Numerals.ParseDigitsWithSign | Fraction/Fraction.cs:80-84 | a nonempty run of digits, with or without a leading '-', reads as a numeral of that value and sign with no fraction digits |
| Numerals.ParseUnsignedDigits | Fraction/Fraction.cs:80-84 | after the sign, a nonempty run of digits reads as their value with no fraction digits |
| Numerals.ParseSingleDigit | Fraction/Fraction.cs:80-84 | a lone digit reads as its value |
| Numerals.ParsePaddedNegative | Fraction/Fraction.cs:80-84 | " -6 " reads as -6: surrounding white space is skipped |
| Numerals.ParsePaddedPositive | Fraction/Fraction.cs:80-84 | " 8 " reads as 8 |
| Numerals.ParseZeroFraction | Fraction/Fraction.cs:80-90 | "4.0" keeps its digit after the point, and that numeral is integral |
| Numerals.ParseNonzeroFraction | Fraction/Fraction.cs:80-87 | "1.5" keeps its digit after the point, so it can be rejected as not integral |
| Splitting.SplitLosesOnlySeparators | Fraction/Fraction.cs:73 | the pieces of the split, put back together, are the text with every '/' removed |
| Splitting.SplitTwoPieces | Fraction/Fraction.cs:73 | two nonempty slash-free runs joined by one '/' split back into exactly those two runs |
| Splitting.SplitOnePiece | Fraction/Fraction.cs:73 | nonempty text without '/' is a single piece |

## Left out

- fixPrecision (Fraction/Fraction.cs:243-255) is taken as the identity, so the model stays exact where the C# class does not. The C# class replaces a result by round(N/D)/1 whenever |N/D − round(N/D)| < 10^-12·|N/D|. That always happens when |N/D| is above 5·10^11, and it also happens to values close to a whole number, such as 2000000000001/2000000000000, which it turns into 1/1. Neither case is modelled, and `FromString` keeps such pairs exact. `Convert.ToInt64` throws an OverflowException when N/D rounds to a value outside the Int64 range; that is not modelled either. The console notice it prints for every collapse, and so for every nonzero whole result, is output only.
- Double arithmetic: rounding, overflow to infinity, NaN and the `-0` a zero numerator could print as are not modelled; N and D are unbounded integers.
- Fractions.FromString: accepts only numerals of sign, digits and a decimal point. Thousands separators, exponents, culture-specific symbols, `Infinity` and `NaN`, which `double.TryParse` also admits, are not modelled. The C# parser tests integrality after the numeral has been rounded to a double (Fraction/Fraction.cs:86-90), so "1.00000000000000000001/2" is accepted there as 1/2; `IsIntegral` looks at the exact digits and refuses it.
- Fractions.ToString has no contract of its own. Its meaning is stated by the round-trip lemmas. Doubles too large for plain digits, which "{0}" prints in exponent notation, are not modelled.
- The constructor from a double (Fraction/Fraction.cs:29-34), fromDecimal, the mixed double operators and the implicit conversion from a double (Fraction/Fraction.cs:275-276) need double-to-text conversion, which is not modelled. The implicit conversion to a double (Fraction/Fraction.cs:271-272) converts its operand back to a double in order to build a new Fraction, so it calls itself and never returns a value; it is not modelled.
- The operators take `Frac` values, which cannot be null, so the NullReferenceException that a null operand raises (the read of `lhs.D` at Fraction/Fraction.cs:355, for instance) has no counterpart.
- Root, Pow, _pow and the `^` operators rest on Math.Pow on doubles and are not modelled.
- The ordering operators `< > <= >=` compare doubles `N / D` and are not modelled. GetHashCode hashes a double and is not modelled.
- Unary `+` returns its operand unchanged and needs no model.
- Equals(object): the cast from object and the GetType() check have no counterpart here, since every object in the model is a Fraction.
- Print writes to the console and is not modelled. The Windows Forms demo in Fraction_Test is not part of this model.
