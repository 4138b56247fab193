/**
 * The Fraction value type: a numerator N and a denominator D, exact
 * rational arithmetic on them, normalisation to lowest terms, normalising
 * equality, and the "N/D" text form.
 *
 * N and D are integers here. The C# class keeps them in doubles, but every
 * value the modelled operations produce is integral: text input must be
 * integral, and the operators only add, multiply and divide exactly by a
 * common divisor.
 *
 * The modelled exceptions are the two the type throws: ArgumentException
 * (InvalidArgument) for a zero denominator or malformed text, and
 * DivideByZeroException (DivideByZero) for dividing by a zero fraction.
 */
module Fractions {
  import opened Divisibility
  import opened Numerals
  import opened Splitting

  datatype Error = InvalidArgument | DivideByZero

  datatype Result<+T> = Success(value: T) | Failure(error: Error)

  /** Completion of an operation that returns nothing. */
  datatype Outcome = Pass | Fail(error: Error)

  /** A numerator/denominator pair, as the operators read and build it. */
  datatype Frac = Frac(n: int, d: int)

  /** The rational number a pair with a nonzero denominator stands for. */
  ghost function Value(f: Frac): real
    requires f.d != 0
  {
    f.n as real / f.d as real
  }

  /** Lowest terms with a positive denominator (zero's only such form is 0/1). */
  predicate IsNormal(f: Frac)
  {
    f.d > 0 && Gcd(Abs(f.n), f.d) == 1
  }

  // ---------------------------------------------------------------------
  // Rational arithmetic on numerator/denominator pairs
  // ---------------------------------------------------------------------

  /** Two pairs denote the same rational exactly when they cross-multiply equal. */
  lemma CrossValue(a: int, d: int, b: int, e: int)
    requires d != 0 && e != 0
    ensures (a * e == b * d) <==> (a as real / d as real == b as real / e as real)
  {
    var x := a as real / d as real;
    var y := b as real / e as real;
    assert a as real == x * d as real;
    assert b as real == y * e as real;
    assert (a * e) as real == a as real * e as real;
    assert (b * d) as real == b as real * d as real;
    assert a as real * e as real == x * (d as real * e as real);
    assert b as real * d as real == y * (d as real * e as real);
    assert d as real * e as real != 0.0;
  }

  lemma SameValue(f: Frac, n: int, d: int)
    requires f.d != 0 && d != 0 && f.n * d == n * f.d
    ensures Value(f) == n as real / d as real
  {
    CrossValue(f.n, f.d, n, d);
  }

  lemma SumValue(a: Frac, b: Frac)
    requires a.d != 0 && b.d != 0
    ensures (a.n * b.d + b.n * a.d) as real / (a.d * b.d) as real == Value(a) + Value(b)
  {
    assert (a.n * b.d + b.n * a.d) as real == a.n as real * b.d as real + b.n as real * a.d as real;
    assert (a.d * b.d) as real == a.d as real * b.d as real;
  }

  lemma DifferenceValue(a: Frac, b: Frac)
    requires a.d != 0 && b.d != 0
    ensures (a.n * b.d + b.n * a.d * -1) as real / (a.d * b.d) as real == Value(a) - Value(b)
  {
    assert (a.n * b.d + b.n * a.d * -1) as real == a.n as real * b.d as real - b.n as real * a.d as real;
    assert (a.d * b.d) as real == a.d as real * b.d as real;
  }

  lemma NegatedValue(a: Frac)
    requires a.d != 0
    ensures Value(Frac(a.n * -1, a.d)) == -Value(a)
  {
    assert (a.n * -1) as real == -(a.n as real);
  }

  lemma ProductValue(a: Frac, b: Frac)
    requires a.d != 0 && b.d != 0
    ensures (a.n * b.n) as real / (a.d * b.d) as real == Value(a) * Value(b)
  {
    assert (a.n * b.n) as real == a.n as real * b.n as real;
    assert (a.d * b.d) as real == a.d as real * b.d as real;
  }

  lemma QuotientValue(a: Frac, b: Frac)
    requires a.d != 0 && b.d != 0 && b.n != 0
    ensures a.d * b.n != 0
    ensures Value(b) != 0.0
    ensures (a.n * b.d) as real / (a.d * b.n) as real == Value(a) / Value(b)
  {
    assert (a.n * b.d) as real == a.n as real * b.d as real;
    assert (a.d * b.n) as real == a.d as real * b.n as real;
    assert a.d as real * b.n as real != 0.0;
  }

  lemma ShiftValue(a: Frac, k: int)
    requires a.d != 0
    ensures (a.n + k * a.d) as real / a.d as real == Value(a) + k as real
  {
    assert (a.n + k * a.d) as real == a.n as real + k as real * a.d as real;
  }

  // ---------------------------------------------------------------------
  // Divisibility of signed numerators and denominators
  // ---------------------------------------------------------------------

  lemma DividesNegation(k: int, a: int)
    requires Divides(k, a)
    ensures Divides(k, -a)
  {
    DividesMultiple(k, 0);
    DividesCombination(k, 0, a, 1);
  }

  lemma AbsMul(x: int, s: int)
    requires s > 0
    ensures Abs(x) * s == Abs(x * s)
  {
    if x < 0 {
      MulAtLeast(s, -x);
      assert (-x) * s == -(x * s);
    } else if x > 0 {
      MulAtLeast(s, x);
    }
  }

  /** An exact quotient's magnitude is the magnitude's quotient. */
  lemma AbsQuotient(k: int, a: int)
    requires Divides(k, a)
    ensures Abs(a / k) == Abs(a) / k
  {
    var q := a / k;
    assert a == k * q;
    AbsMul(q, k);
    assert Abs(a) == Abs(q) * k;
    DivModUnique(Abs(a), k, Abs(q), 0);
  }

  /** What dividing a nonzero pair by the Gcd of its magnitudes gives. */
  lemma ReduceByGcd(n: int, d: int)
    requires n != 0 && d != 0
    ensures var g := Gcd(Abs(n), Abs(d));
      && g >= 1
      && n == g * (n / g) && d == g * (d / g)
      && Gcd(Abs(n / g), Abs(d / g)) == 1
  {
    var g := Gcd(Abs(n), Abs(d));
    GcdDividesBoth(Abs(n), Abs(d));
    GcdOfReduced(Abs(n), Abs(d));
    if n < 0 {
      DividesNegation(g, Abs(n));
    }
    if d < 0 {
      DividesNegation(g, Abs(d));
    }
    DividesQuotient(g, n);
    DividesQuotient(g, d);
    AbsQuotient(g, n);
    AbsQuotient(g, d);
  }

  /** Dividing by the Gcd and moving the sign to the numerator gives a normal pair of the same value. */
  lemma ReducedIsNormal(n: int, d: int, g: int)
    requires n != 0 && d != 0 && g == Gcd(Abs(n), Abs(d))
    ensures g >= 1
    ensures var n1 := n / g;
      var d1 := d / g;
      var f := if d1 < 0 then Frac(-n1, -d1) else Frac(n1, d1);
      IsNormal(f) && f.n * d == n * f.d
  {
    ReduceByGcd(n, d);
    var n1 := n / g;
    var d1 := d / g;
    MulSwap(n1, g, d1);
    MoveSign(n, d, n1, d1);
  }

  lemma MulSwap(a: int, b: int, c: int)
    ensures a * (b * c) == (b * a) * c
  {
  }

  lemma MoveSign(n: int, d: int, n1: int, d1: int)
    requires d1 != 0 && Gcd(Abs(n1), Abs(d1)) == 1 && n1 * d == n * d1
    ensures var f := if d1 < 0 then Frac(-n1, -d1) else Frac(n1, d1);
      IsNormal(f) && f.n * d == n * f.d
  {
    assert Abs(-n1) == Abs(n1) && Abs(-d1) == Abs(d1);
    assert (-n1) * d == n * (-d1);
  }

  /** Two normal pairs that denote the same rational are the same pair. */
  lemma NormalUnique(f: Frac, h: Frac)
    requires IsNormal(f) && IsNormal(h) && f.n * h.d == h.n * f.d
    ensures f == h
  {
    var p, q, r, s := Abs(f.n), f.d, Abs(h.n), h.d;
    AbsMul(f.n, s);
    AbsMul(h.n, q);
    assert p * s == r * q;
    if p == 0 {
      MulCancel(q, r, 0);
      GcdZeroLeft(q);
      GcdZeroLeft(s);
    } else {
      GcdCommutes(p, q);
      GcdCommutes(r, s);
      DividesMultiple(q, r);
      DividesMultiple(s, p);
      CoprimeDividesFactor(q, p, s);
      CoprimeDividesFactor(s, r, q);
      MutualDivisors(q, s);
      MulCancel(s, f.n, h.n);
    }
  }

  // ---------------------------------------------------------------------
  // Normalisation (_Simplify) and the GCD scan
  // ---------------------------------------------------------------------

  /**
   * The normal form of n/d: a zero denominator is an error, a zero
   * numerator gives exactly 0/1, anything else is divided by the Gcd of the
   * magnitudes with the sign then moved onto the numerator.
   */
  function Normalize(n: int, d: int): (r: Result<Frac>)
    ensures r.Failure? <==> d == 0
    ensures r.Failure? ==> r.error == InvalidArgument
    ensures n == 0 && d != 0 ==> r == Success(Frac(0, 1))
    ensures r.Success? ==> IsNormal(r.value) && r.value.n * d == n * r.value.d
  {
    if d == 0 then Failure(InvalidArgument)
    else if n == 0 then Success(Frac(0, 1))
    else
      var g := Gcd(Abs(n), Abs(d));
      ReducedIsNormal(n, d, g);
      var n1 := n / g;
      var d1 := d / g;
      if d1 < 0 then Success(Frac(-n1, -d1)) else Success(Frac(n1, d1))
  }

  /** Normalisation only depends on the rational a pair denotes. */
  lemma NormalizeCanonical(n1: int, d1: int, n2: int, d2: int)
    requires d1 != 0 && d2 != 0
    requires n1 as real / d1 as real == n2 as real / d2 as real
    ensures Normalize(n1, d1) == Normalize(n2, d2)
  {
    var f := Normalize(n1, d1).value;
    var h := Normalize(n2, d2).value;
    SameValue(f, n1, d1);
    SameValue(h, n2, d2);
    CrossValue(f.n, f.d, h.n, h.d);
    NormalUnique(f, h);
  }

  /** A pair already in normal form is its own normal form. */
  lemma NormalizeKeepsNormal(f: Frac)
    requires IsNormal(f)
    ensures Normalize(f.n, f.d) == Success(f)
  {
    NormalUnique(f, Normalize(f.n, f.d).value);
  }

  /** Normalising twice is normalising once. */
  lemma NormalizeIdempotent(n: int, d: int)
    requires d != 0
    ensures var f := Normalize(n, d).value; Normalize(f.n, f.d) == Normalize(n, d)
  {
    NormalizeKeepsNormal(Normalize(n, d).value);
  }

  /** No common divisor of the magnitudes lies strictly above i and at most m. */
  ghost predicate NoCommonDivisorAbove(n: nat, d: nat, i: int, m: int)
  {
    forall c :: i < c <= m ==> !(Divides(c, n) && Divides(c, d))
  }

  /** The first hit of a downward scan from min(n, d) is the greatest common divisor. */
  lemma ScanHitIsGcd(n: nat, d: nat, i: int)
    requires 1 <= i <= n && i <= d
    requires Divides(i, n) && Divides(i, d)
    requires NoCommonDivisorAbove(n, d, i, if n < d then n else d)
    ensures i == Gcd(n, d)
  {
    var g := Gcd(n, d);
    GcdDividesBoth(n, d);
    DivisorBound(g, n);
    DivisorBound(g, d);
    assert g <= i;
    CommonDivisorDividesGcd(i, n, d);
    DivisorBound(i, g);
  }

  /**
   * The GCD helper: scans i down from min(|numerator|, |denominator|) and
   * returns the first i dividing both magnitudes; 1 when the scan finds
   * nothing, which happens exactly when one argument is zero.
   */
  method LinearGcd(numerator: int, denominator: int) returns (g: int)
    ensures g >= 1
    ensures numerator != 0 && denominator != 0 ==> g == Gcd(Abs(numerator), Abs(denominator))
    ensures numerator == 0 || denominator == 0 ==> g == 1
  {
    var n := Abs(numerator);
    var d := Abs(denominator);
    var m := if n < d then n else d;
    var i := m;
    while i >= 1
      invariant 0 <= i <= m
      invariant NoCommonDivisorAbove(n, d, i, m)
      decreases i
    {
      if n % i == 0 && d % i == 0 {
        ScanHitIsGcd(n, d, i);
        return i;
      }
      i := i - 1;
    }
    assert n > 0 && d > 0 ==> Divides(1, n) && Divides(1, d);
    return 1;
  }

  /**
   * _Simplify, step by step: reject a zero denominator, return 0/1 for a
   * zero numerator, divide both parts by their GCD, then move a negative
   * sign from the denominator to the numerator.
   */
  method SimplifyPair(numerator: int, denominator: int) returns (r: Result<Frac>)
    ensures r == Normalize(numerator, denominator)
  {
    var n := numerator;
    var d := denominator;
    if d == 0 {
      return Failure(InvalidArgument);
    }
    if n == 0 {
      return Success(Frac(0, 1));
    }
    var gcdNum := LinearGcd(n, d);
    if gcdNum != 0 {
      n := n / gcdNum;
      d := d / gcdNum;
    }
    if d < 0 {
      d := d * -1;
      n := n * -1;
    }
    return Success(Frac(n, d));
  }

  // ---------------------------------------------------------------------
  // Construction and the operators
  // ---------------------------------------------------------------------

  /** new Fraction(n, d): a zero denominator is refused; anything else is stored as given. */
  function FromRatio(n: int, d: int): (r: Result<Frac>)
    ensures r.Failure? <==> d == 0
    ensures r.Failure? ==> r.error == InvalidArgument
    ensures r.Success? ==> r.value.n == n && r.value.d == d
  {
    if d == 0 then Failure(InvalidArgument) else Success(Frac(n, d))
  }

  /** lhs + rhs: a zero operand returns the other one as it is; otherwise the normalised sum. */
  function Add(lhs: Frac, rhs: Frac): (r: Result<Frac>)
    ensures r.Failure? <==> lhs.d == 0 || rhs.d == 0
    ensures r.Failure? ==> r.error == InvalidArgument
    ensures r.Success? ==> r.value.d != 0 && Value(r.value) == Value(lhs) + Value(rhs)
    ensures r.Success? && lhs.n == 0 ==> r.value == rhs
    ensures r.Success? && lhs.n != 0 && rhs.n == 0 ==> r.value == lhs
    ensures r.Success? && lhs.n != 0 && rhs.n != 0 ==> IsNormal(r.value)
  {
    if lhs.d == 0 || rhs.d == 0 then Failure(InvalidArgument)
    else if lhs.n == 0 then FromRatio(rhs.n, rhs.d)
    else if rhs.n == 0 then FromRatio(lhs.n, lhs.d)
    else
      var commonDenominator := lhs.d * rhs.d;
      var numerator := lhs.n * rhs.d + rhs.n * lhs.d;
      var r := Normalize(numerator, commonDenominator);
      SumValue(lhs, rhs);
      SameValue(r.value, numerator, commonDenominator);
      r
  }

  /** lhs - rhs: a zero lhs gives -rhs as it is, a zero rhs gives lhs; otherwise the normalised difference. */
  function Subtract(lhs: Frac, rhs: Frac): (r: Result<Frac>)
    ensures r.Failure? <==> lhs.d == 0 || rhs.d == 0
    ensures r.Failure? ==> r.error == InvalidArgument
    ensures r.Success? ==> r.value.d != 0 && Value(r.value) == Value(lhs) - Value(rhs)
    ensures r.Success? && lhs.n == 0 ==> r.value == Frac(-rhs.n, rhs.d)
    ensures r.Success? && lhs.n != 0 && rhs.n == 0 ==> r.value == lhs
    ensures r.Success? && lhs.n != 0 && rhs.n != 0 ==> IsNormal(r.value)
  {
    if lhs.d == 0 || rhs.d == 0 then Failure(InvalidArgument)
    else if lhs.n == 0 then
      NegatedValue(rhs);
      FromRatio(rhs.n * -1, rhs.d)
    else if rhs.n == 0 then FromRatio(lhs.n, lhs.d)
    else
      var cd := lhs.d * rhs.d;
      var n := lhs.n * rhs.d + rhs.n * lhs.d * -1;
      var r := Normalize(n, cd);
      DifferenceValue(lhs, rhs);
      SameValue(r.value, n, cd);
      r
  }

  /** lhs * rhs, normalised. */
  function Multiply(lhs: Frac, rhs: Frac): (r: Result<Frac>)
    ensures r.Failure? <==> lhs.d == 0 || rhs.d == 0
    ensures r.Failure? ==> r.error == InvalidArgument
    ensures r.Success? ==> IsNormal(r.value) && Value(r.value) == Value(lhs) * Value(rhs)
  {
    if lhs.d == 0 || rhs.d == 0 then Failure(InvalidArgument)
    else
      var n := lhs.n * rhs.n;
      var d := lhs.d * rhs.d;
      var r := Normalize(n, d);
      ProductValue(lhs, rhs);
      SameValue(r.value, n, d);
      r
  }

  /**
   * lhs / rhs, normalised: a zero denominator is an invalid argument, checked
   * first; a zero divisor is a division by zero.
   */
  function Divide(lhs: Frac, rhs: Frac): (r: Result<Frac>)
    ensures r.Failure? <==> lhs.d == 0 || rhs.d == 0 || rhs.n == 0
    ensures r.Failure? ==> (r.error == DivideByZero <==> lhs.d != 0 && rhs.d != 0)
    ensures r.Success? ==> IsNormal(r.value) && Value(rhs) != 0.0 && Value(r.value) == Value(lhs) / Value(rhs)
  {
    if lhs.d == 0 || rhs.d == 0 then Failure(InvalidArgument)
    else if rhs.n == 0 then Failure(DivideByZero)
    else
      var numerator := lhs.n * rhs.d;
      var denominator := lhs.d * rhs.n;
      QuotientValue(lhs, rhs);
      var r := Normalize(numerator, denominator);
      SameValue(r.value, numerator, denominator);
      r
  }

  /** -a: the numerator negated, the denominator kept, through the checking constructor. */
  function Negate(a: Frac): (r: Result<Frac>)
    ensures r.Failure? <==> a.d == 0
    ensures r.Failure? ==> r.error == InvalidArgument
    ensures r.Success? ==> r.value.d == a.d && Value(r.value) == -Value(a)
  {
    FromRatio(-a.n, a.d)
  }

  /** a++: (N + D) / D, normalised. */
  function Increment(a: Frac): (r: Result<Frac>)
    ensures r.Failure? <==> a.d == 0
    ensures r.Failure? ==> r.error == InvalidArgument
    ensures r.Success? ==> IsNormal(r.value) && Value(r.value) == Value(a) + 1.0
  {
    var r := Normalize(a.n + a.d, a.d);
    if r.Success? then
      ShiftValue(a, 1);
      SameValue(r.value, a.n + a.d, a.d);
      r
    else r
  }

  /** a--: (N - D) / D, normalised. */
  function Decrement(a: Frac): (r: Result<Frac>)
    ensures r.Failure? <==> a.d == 0
    ensures r.Failure? ==> r.error == InvalidArgument
    ensures r.Success? ==> IsNormal(r.value) && Value(r.value) == Value(a) - 1.0
  {
    var r := Normalize(a.n - a.d, a.d);
    if r.Success? then
      ShiftValue(a, -1);
      SameValue(r.value, a.n - a.d, a.d);
      r
    else r
  }

  /**
   * The value comparison inside Equals: normalise the other operand, then
   * this one, and compare the two normal forms exactly.
   */
  function NormalFormsMatch(self: Frac, obj: Frac): (r: Result<bool>)
    ensures r.Failure? <==> self.d == 0 || obj.d == 0
    ensures r.Failure? ==> r.error == InvalidArgument
    ensures r.Success? ==> (r.value <==> Value(self) == Value(obj))
  {
    var fl := Normalize(obj.n, obj.d);
    var fr := Normalize(self.n, self.d);
    if fl.Failure? then Failure(fl.error)
    else if fr.Failure? then Failure(fr.error)
    else
      NormalFormsMatchValue(self, obj);
      Success(fl.value.n == fr.value.n && fl.value.d == fr.value.d)
  }

  /** Two valid pairs have the same normal form exactly when they denote the same rational. */
  lemma NormalFormsMatchValue(a: Frac, b: Frac)
    requires a.d != 0 && b.d != 0
    ensures Normalize(a.n, a.d) == Normalize(b.n, b.d) <==> Value(a) == Value(b)
  {
    SameValue(Normalize(a.n, a.d).value, a.n, a.d);
    SameValue(Normalize(b.n, b.d).value, b.n, b.d);
    if Value(a) == Value(b) {
      NormalizeCanonical(a.n, a.d, b.n, b.d);
    }
  }

  /** a * (1 / a) is exactly 1/1 for every a with a nonzero numerator. */
  lemma MultiplicativeInverse(a: Frac)
    requires a.d != 0 && a.n != 0
    ensures Divide(Frac(1, 1), a).Success?
    ensures Multiply(a, Divide(Frac(1, 1), a).value) == Success(Frac(1, 1))
  {
    var inv := Divide(Frac(1, 1), a).value;
    var p := Multiply(a, inv).value;
    assert Value(p) == 1.0;
    CrossValue(p.n, p.d, 1, 1);
    NormalUnique(p, Frac(1, 1));
  }

  // ---------------------------------------------------------------------
  // Text form
  // ---------------------------------------------------------------------

  /** "N" when D is 1, "Undefined!" when D is 0, "N/D" otherwise. */
  function ToString(f: Frac): (text: string)
  {
    if f.d == 1 then IntToString(f.n)
    else if f.d == 0 then "Undefined!"
    else IntToString(f.n) + "/" + IntToString(f.d)
  }

  /**
   * fromString: split on '/' dropping empty pieces; exactly two pieces, both
   * numerals, both integral; the result is the normal form of their ratio.
   */
  function FromString(s: string): (r: Result<Frac>)
    ensures r.Failure? ==> r.error == InvalidArgument
    ensures r.Success? ==> IsNormal(r.value)
  {
    var parts := SplitNonEmpty(s, '/');
    if |parts| != 2 then Failure(InvalidArgument)
    else
      var n := ParseNumeral(parts[0]);
      var d := ParseNumeral(parts[1]);
      if n.None? || d.None? then Failure(InvalidArgument)
      else if !IsIntegral(n.value) || !IsIntegral(d.value) then Failure(InvalidArgument)
      else Normalize(IntegerValue(n.value), IntegerValue(d.value))
  }

  /** Text splitting into exactly two pieces that are both numerals. */
  predicate TwoNumerals(parts: seq<string>)
  {
    |parts| == 2 && ParseNumeral(parts[0]).Some? && ParseNumeral(parts[1]).Some?
  }

  /**
   * What fromString accepts and what it returns: it succeeds exactly when the
   * text splits into two numerals that are both integral with a nonzero
   * denominator, and then the result denotes their ratio.
   */
  lemma FromStringMeaning(s: string)
    ensures var parts := SplitNonEmpty(s, '/');
      FromString(s).Success? <==>
        TwoNumerals(parts) &&
        IsIntegral(ParseNumeral(parts[0]).value) && IsIntegral(ParseNumeral(parts[1]).value) &&
        IntegerValue(ParseNumeral(parts[1]).value) != 0
    ensures var parts := SplitNonEmpty(s, '/');
      FromString(s).Success? ==>
        var n := IntegerValue(ParseNumeral(parts[0]).value);
        var d := IntegerValue(ParseNumeral(parts[1]).value);
        d != 0 && Value(FromString(s).value) == n as real / d as real
  {
    var r := FromString(s);
    if r.Success? {
      var parts := SplitNonEmpty(s, '/');
      var n := IntegerValue(ParseNumeral(parts[0]).value);
      var d := IntegerValue(ParseNumeral(parts[1]).value);
      SameValue(r.value, n, d);
    }
  }

  /** Reading back the text of a fraction whose denominator is not 1 gives its normal form. */
  lemma ToStringRoundTrip(f: Frac)
    requires f.d != 0 && f.d != 1
    ensures FromString(ToString(f)) == Normalize(f.n, f.d)
  {
    var a := IntToString(f.n);
    var b := IntToString(f.d);
    IntToStringHasNoSlash(f.n);
    IntToStringHasNoSlash(f.d);
    assert ToString(f) == a + ['/'] + b;
    SplitTwoPieces(a, b, '/');
    ParseIntToString(f.n);
    ParseIntToString(f.d);
  }

  /** A normal fraction with denominator other than 1 reads back as itself. */
  lemma ToStringRoundTripNormal(f: Frac)
    requires IsNormal(f) && f.d != 1
    ensures FromString(ToString(f)) == Success(f)
  {
    ToStringRoundTrip(f);
    NormalizeKeepsNormal(f);
  }

  /** A whole number prints without "/", which the parser does not read back. */
  lemma ToStringWholeNotReadable(f: Frac)
    requires f.d == 1
    ensures FromString(ToString(f)) == Failure(InvalidArgument)
  {
    IntToStringHasNoSlash(f.n);
    SplitOnePiece(IntToString(f.n), '/');
  }

  /** The text of a whole fraction is a numeral for its numerator. */
  lemma ToStringWholeReadsAsInteger(f: Frac)
    requires f.d == 1
    ensures ParseNumeral(ToString(f)).Some?
    ensures IsIntegral(ParseNumeral(ToString(f)).value)
    ensures IntegerValue(ParseNumeral(ToString(f)).value) == f.n
  {
    ParseIntToString(f.n);
  }

  lemma ExampleHalfPlusHalf()
    ensures Add(Frac(1, 2), Frac(1, 2)) == Success(Frac(1, 1))
    ensures ToString(Frac(1, 1)) == "1"
  {
  }

  lemma ExampleTwoQuarters()
    ensures Normalize(2, 4) == Success(Frac(1, 2)) && ToString(Frac(1, 2)) == "1/2"
  {
    assert Gcd(2, 4) == 2;
  }

  lemma ExampleSignMoves()
    ensures Normalize(3, -6) == Success(Frac(-1, 2))
  {
    assert Gcd(3, 6) == 3;
  }

  lemma ExampleZeroShortcuts()
    ensures Add(Frac(2, 4), Frac(0, 1)) == Success(Frac(2, 4))
    ensures Subtract(Frac(0, 3), Frac(2, 4)) == Success(Frac(-2, 4))
  {
  }

  lemma ExampleErrors()
    ensures Divide(Frac(1, 2), Frac(0, 5)) == Failure(DivideByZero)
    ensures Divide(Frac(1, 0), Frac(0, 5)) == Failure(InvalidArgument)
    ensures FromRatio(1, 0) == Failure(InvalidArgument)
  {
  }

  lemma ExampleIncrement()
    ensures Increment(Frac(3, 2)) == Success(Frac(5, 2))
  {
  }

  lemma ExampleParseReduces()
    ensures FromString("2/4") == Success(Frac(1, 2))
  {
    ParseSingleDigit('2');
    ParseSingleDigit('4');
    assert "2/4" == "2" + "/" + "4";
    FromStringOfTwoNumerals("2", "4", Numeral(false, 2, ""), Numeral(false, 4, ""));
    NormalizeExamples();
  }

  /** FromString on text whose two parts read as the integral numerals x and y. */
  lemma FromStringOfParts(s: string, a: string, b: string, x: Numeral, y: Numeral)
    requires SplitNonEmpty(s, '/') == [a, b]
    requires ParseNumeral(a) == Some(x) && ParseNumeral(b) == Some(y)
    requires IsIntegral(x) && IsIntegral(y)
    ensures FromString(s) == Normalize(IntegerValue(x), IntegerValue(y))
  {
  }

  /** The reductions the parsing examples below end in. */
  lemma NormalizeExamples()
    ensures Normalize(2, 4) == Success(Frac(1, 2))
    ensures Normalize(1, 2) == Success(Frac(1, 2))
    ensures Normalize(-6, 8) == Success(Frac(-3, 4))
    ensures Normalize(4, 2) == Success(Frac(2, 1))
  {
    assert Gcd(2, 4) == 2;
    assert Gcd(1, 2) == 1;
    assert Gcd(6, 8) == 2;
    assert Gcd(4, 2) == 2;
  }

  /** Empty pieces are dropped, so a doubled separator still gives two parts. */
  lemma ExampleParseEmptyPiece()
    ensures FromString("1//2") == Success(Frac(1, 2))
  {
    assert FromString("1//2") == Normalize(1, 2) by {
      SplitDoubledSeparator();
      ParseSingleDigit('1');
      ParseSingleDigit('2');
      FromStringOfParts("1//2", "1", "2", Numeral(false, 1, ""), Numeral(false, 2, ""));
    }
    NormalizeExamples();
  }

  lemma SplitDoubledSeparator()
    ensures SplitNonEmpty("1//2", '/') == ["1", "2"]
  {
    assert "1//2" == "1" + "//2";
    SplitFirstPiece("1", "//2", '/');
    assert "//2"[1..] == "/2" && "/2"[1..] == "2";
    SplitOnePiece("2", '/');
  }

  lemma ExampleParseSpaces()
    ensures FromString(" -6 / 8 ") == Success(Frac(-3, 4))
  {
    assert FromString(" -6 / 8 ") == Normalize(-6, 8) by {
      assert " -6 / 8 " == " -6 " + ['/'] + " 8 ";
      SplitTwoPieces(" -6 ", " 8 ", '/');
      ParsePaddedNegative();
      ParsePaddedPositive();
      FromStringOfParts(" -6 / 8 ", " -6 ", " 8 ", Numeral(true, 6, ""), Numeral(false, 8, ""));
    }
    NormalizeExamples();
  }

  /** FromString on two nonempty slash-free numerals joined by one '/'. */
  lemma FromStringOfTwoNumerals(a: string, b: string, x: Numeral, y: Numeral)
    requires |a| > 0 && |b| > 0 && '/' !in a && '/' !in b
    requires ParseNumeral(a) == Some(x) && ParseNumeral(b) == Some(y)
    requires IsIntegral(x) && IsIntegral(y)
    ensures FromString(a + "/" + b) == Normalize(IntegerValue(x), IntegerValue(y))
  {
    SplitTwoPieces(a, b, '/');
    FromStringOfParts(a + "/" + b, a, b, x, y);
  }

  /** A decimal point is accepted when only zeros follow it. */
  lemma ExampleParseIntegralDecimal()
    ensures FromString("4.0" + "/" + "2") == Success(Frac(2, 1))
  {
    ParseZeroFraction();
    ParseSingleDigit('2');
    FromStringOfTwoNumerals("4.0", "2", Numeral(false, 4, "0"), Numeral(false, 2, ""));
    NormalizeExamples();
  }

  /** A numeral with a nonzero digit after its point is refused. */
  lemma ExampleParseNotIntegral()
    ensures FromString("1.5" + "/" + "2") == Failure(InvalidArgument)
  {
    ParseNonzeroFraction();
    ParseSingleDigit('2');
    SplitTwoPieces("1.5", "2", '/');
  }

  lemma ExampleParseZeroDenominator()
    ensures FromString("1/0") == Failure(InvalidArgument)
  {
    assert "1/0" == "1" + ['/'] + "0";
    SplitTwoPieces("1", "0", '/');
    ParseSingleDigit('1');
    ParseSingleDigit('0');
    assert ParseNumeral("0") == Some(Numeral(false, 0, ""));
  }

  lemma ExampleParseWrongPartCount()
    ensures FromString("1/2/3") == Failure(InvalidArgument)
    ensures FromString("3") == Failure(InvalidArgument)
  {
    assert "1/2/3" == "1" + "/2/3";
    SplitFirstPiece("1", "/2/3", '/');
    assert "/2/3"[1..] == "2/3";
    assert "2/3" == "2" + ['/'] + "3";
    SplitTwoPieces("2", "3", '/');
    SplitOnePiece("3", '/');
  }

  /**
   * A Fraction object. N and D are public fields: callers may assign them,
   * and Simplify() overwrites both in place.
   */
  class Fraction {
    var N: int
    var D: int

    /** The pair the object currently holds. */
    function Pair(): Frac
      reads this
    {
      Frac(N, D)
    }

    /** The constructor's successful path: the pair is stored as given, not normalised. */
    constructor (numerator: int, denominator: int)
      requires denominator != 0
      ensures N == numerator && D == denominator
    {
      N := numerator;
      D := denominator;
    }

    /** new Fraction(numerator, denominator), with its zero-denominator exception as a failure. */
    static method Create(numerator: int, denominator: int) returns (r: Result<Fraction>)
      ensures r.Failure? <==> denominator == 0
      ensures r.Failure? ==> r.error == InvalidArgument
      ensures r.Success? ==> fresh(r.value) && r.value.N == numerator && r.value.D == denominator
    {
      if denominator == 0 {
        return Failure(InvalidArgument);
      }
      var f := new Fraction(numerator, denominator);
      return Success(f);
    }

    /**
     * new Fraction(string) and the implicit conversion from a string: a new
     * object holding what fromString yields, or fromString's error.
     */
    static method CreateFromString(fraction: string) returns (r: Result<Fraction>)
      ensures r.Failure? <==> FromString(fraction).Failure?
      ensures r.Failure? ==> r.error == InvalidArgument
      ensures r.Success? ==> fresh(r.value) && r.value.Pair() == FromString(fraction).value
      ensures r.Success? ==> IsNormal(r.value.Pair())
    {
      var parsed := FromString(fraction);
      if parsed.Failure? {
        return Failure(parsed.error);
      }
      var f := new Fraction(parsed.value.n, parsed.value.d);
      return Success(f);
    }

    /**
     * Simplify(): N and D become the normal form of the pair they held, which
     * denotes the same rational; a zero denominator fails and changes nothing.
     */
    method Simplify() returns (r: Outcome)
      modifies this
      ensures old(D) == 0 ==> r == Fail(InvalidArgument) && N == old(N) && D == old(D)
      ensures old(D) != 0 ==> r == Pass && Success(Pair()) == Normalize(old(N), old(D))
      ensures old(D) != 0 ==> IsNormal(Pair()) && Value(Pair()) == Value(old(Pair()))
    {
      ghost var before := Pair();
      var f := SimplifyPair(N, D);
      if f.Failure? {
        return Fail(f.error);
      }
      N := f.value.n;
      D := f.value.d;
      SameValue(Pair(), before.n, before.d);
      r := Pass;
    }

    /** GCD(): the scan applied to the current N and D. */
    method GcdOfFields() returns (g: int)
      ensures g >= 1
      ensures N != 0 && D != 0 ==> g == Gcd(Abs(N), Abs(D))
      ensures N == 0 || D == 0 ==> g == 1
    {
      g := LinearGcd(N, D);
    }

    /**
     * Equals(obj): null is unequal, the same object is equal without any
     * check, and two distinct objects are equal when their pairs have the
     * same normal form, that is, denote the same rational.
     */
    function Equals(obj: Fraction?): (r: Result<bool>)
      reads this, obj
      ensures obj == null ==> r == Success(false)
      ensures obj == this ==> r == Success(true)
      ensures obj != null && obj != this ==> (r.Failure? <==> D == 0 || obj.D == 0)
      ensures obj != null && obj != this && r.Success? ==> (r.value <==> Value(Pair()) == Value(obj.Pair()))
    {
      if obj == null then Success(false)
      else if obj == this then Success(true)
      else NormalFormsMatch(Pair(), obj.Pair())
    }

    /** The == operator: two nulls are equal, a null and an object are not, otherwise lhs.Equals(rhs). */
    static function OpEquality(lhs: Fraction?, rhs: Fraction?): (r: Result<bool>)
      reads lhs, rhs
      ensures lhs == null ==> r == Success(rhs == null)
      ensures lhs != null && rhs == null ==> r == Success(false)
      ensures lhs != null && lhs == rhs ==> r == Success(true)
      ensures lhs != null && rhs != null && lhs != rhs ==> (r.Failure? <==> lhs.D == 0 || rhs.D == 0)
      ensures lhs != null && rhs != null && lhs != rhs && r.Success? ==>
        (r.value <==> Value(lhs.Pair()) == Value(rhs.Pair()))
    {
      if lhs == null then Success(rhs == null)
      else lhs.Equals(rhs)
    }

    /** The != operator: the negation of ==, whose failure it passes on. */
    static function OpInequality(lhs: Fraction?, rhs: Fraction?): (r: Result<bool>)
      reads lhs, rhs
      ensures r.Failure? <==> OpEquality(lhs, rhs).Failure?
      ensures r.Success? ==> r.value == !OpEquality(lhs, rhs).value
    {
      var eq := OpEquality(lhs, rhs);
      if eq.Failure? then eq else Success(!eq.value)
    }
  }
}
