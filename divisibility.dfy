/**
 * Divisibility facts over the integers that the fraction model rests on:
 * what it means for a positive number to divide another, Euclid's
 * greatest common divisor as an independent reference definition, and the
 * properties of that divisor the simplification routine relies on
 * (it divides both arguments, every common divisor divides it, it scales,
 * and a number coprime to a product's factor divides the other factor).
 */
module Divisibility {

  /** k is a positive divisor of a. */
  predicate Divides(k: int, a: int)
  {
    k > 0 && a % k == 0
  }

  /** Absolute value. */
  function Abs(x: int): (r: nat)
    ensures r == x || r == -x
  {
    if x < 0 then -x else x
  }

  /** Euclid's greatest common divisor of two magnitudes; Gcd(0, 0) == 0. */
  function Gcd(a: nat, b: nat): (g: nat)
    decreases b
  {
    if b == 0 then a else Gcd(b, a % b)
  }

  // ---------------------------------------------------------------------
  // Arithmetic helpers
  // ---------------------------------------------------------------------

  lemma {:induction false} MulAtLeast(d: int, x: int)
    requires d > 0 && x >= 1
    ensures d * x >= d
    decreases x
  {
    if x > 1 {
      MulAtLeast(d, x - 1);
      assert d * x == d * (x - 1) + d;
    }
  }

  /** A positive factor cancels from both sides of an equation. */
  lemma MulCancel(k: int, x: int, y: int)
    requires k > 0 && k * x == k * y
    ensures x == y
  {
    assert k * (x - y) == 0;
    if x > y {
      MulAtLeast(k, x - y);
    } else if x < y {
      MulAtLeast(k, y - x);
    }
  }

  /** Euclidean division is determined by its defining equation. */
  lemma DivModUnique(n: int, d: int, q: int, r: int)
    requires d > 0 && 0 <= r < d && n == d * q + r
    ensures n / d == q && n % d == r
  {
    var q0 := n / d;
    var r0 := n % d;
    assert d * q0 + r0 == d * q + r;
    assert d * (q - q0) == r0 - r;
    if q0 < q {
      MulAtLeast(d, q - q0);
    } else if q0 > q {
      MulAtLeast(d, q0 - q);
    }
  }

  lemma DividesMultiple(k: int, m: int)
    requires k > 0
    ensures Divides(k, k * m)
  {
    DivModUnique(k * m, k, m, 0);
  }

  /** An exact quotient multiplies back to the dividend. */
  lemma DividesQuotient(k: int, a: int)
    requires Divides(k, a)
    ensures a == k * (a / k)
  {
  }

  /** A common divisor of a and b divides every a - b * t. */
  lemma DividesCombination(k: int, a: int, b: int, t: int)
    requires Divides(k, a) && Divides(k, b)
    ensures Divides(k, a - b * t)
  {
    var p := a / k;
    var q := b / k;
    assert a - b * t == k * (p - q * t) by {
      assert a == k * p && b == k * q;
      assert b * t == k * (q * t);
    }
    DividesMultiple(k, p - q * t);
  }

  /** A positive divisor of a positive number is at most that number. */
  lemma DivisorBound(k: int, a: int)
    requires Divides(k, a) && a > 0
    ensures k <= a
  {
    var q := a / k;
    assert a == k * q;
    assert q >= 1;
    MulAtLeast(k, q);
  }

  /** Two positive numbers that divide each other are equal. */
  lemma MutualDivisors(a: int, b: int)
    requires a > 0 && b > 0 && Divides(a, b) && Divides(b, a)
    ensures a == b
  {
    DivisorBound(a, b);
    DivisorBound(b, a);
  }

  /** Scaling a Euclidean remainder. */
  lemma ModScale(k: int, a: nat, b: nat)
    requires k > 0 && b > 0
    ensures (k * a) % (k * b) == k * (a % b)
  {
    var q := a / b;
    var r := a % b;
    assert a == b * q + r;
    assert k * a == (k * b) * q + k * r;
    assert 0 <= k * r by {
      assert k * r == r * k;
    }
    assert k * r < k * b by {
      MulAtLeast(k, b - r);
      assert k * (b - r) == k * b - k * r;
    }
    DivModUnique(k * a, k * b, q, k * r);
  }

  // ---------------------------------------------------------------------
  // Properties of Gcd
  // ---------------------------------------------------------------------

  /** Gcd(a, b) is a positive common divisor as soon as one argument is positive. */
  lemma {:induction false} GcdDividesBoth(a: nat, b: nat)
    requires a > 0 || b > 0
    ensures Gcd(a, b) > 0 && Divides(Gcd(a, b), a) && Divides(Gcd(a, b), b)
    decreases b
  {
    if b == 0 {
      DividesMultiple(a, 1);
      DividesMultiple(a, 0);
    } else {
      GcdDividesBoth(b, a % b);
      var g := Gcd(a, b);
      // a == (a % b) + b * (a / b), and g divides both terms
      DividesCombination(g, a % b, b, -(a / b));
      assert a % b - b * -(a / b) == a;
    }
  }

  /** Every common divisor of a and b divides Gcd(a, b). */
  lemma {:induction false} CommonDivisorDividesGcd(k: int, a: nat, b: nat)
    requires Divides(k, a) && Divides(k, b)
    ensures Divides(k, Gcd(a, b))
    decreases b
  {
    if b != 0 {
      DividesCombination(k, a, b, a / b);
      assert a - b * (a / b) == a % b;
      CommonDivisorDividesGcd(k, b, a % b);
    }
  }

  /** Gcd(a, b) is the greatest of the common divisors of a and b. */
  lemma GcdGreatest(k: int, a: nat, b: nat)
    requires a > 0 || b > 0
    requires Divides(k, a) && Divides(k, b)
    ensures k <= Gcd(a, b)
  {
    GcdDividesBoth(a, b);
    CommonDivisorDividesGcd(k, a, b);
    DivisorBound(k, Gcd(a, b));
  }

  lemma GcdCommutes(a: nat, b: nat)
    ensures Gcd(a, b) == Gcd(b, a)
  {
    if a == 0 && b == 0 {
    } else {
      GcdDividesBoth(a, b);
      GcdDividesBoth(b, a);
      CommonDivisorDividesGcd(Gcd(a, b), b, a);
      CommonDivisorDividesGcd(Gcd(b, a), a, b);
      MutualDivisors(Gcd(a, b), Gcd(b, a));
    }
  }

  /** Gcd(0, b) == b: a zero numerator reduces to the denominator's magnitude. */
  lemma GcdZeroLeft(b: nat)
    ensures Gcd(0, b) == b
  {
    if b != 0 {
      assert Gcd(0, b) == Gcd(b, 0 % b);
    }
  }

  /** Gcd scales with a common positive factor. */
  lemma {:induction false} GcdScale(k: int, a: nat, b: nat)
    requires k > 0
    ensures Gcd(k * a, k * b) == k * Gcd(a, b)
    decreases b
  {
    if b == 0 {
      assert k * b == 0;
    } else {
      assert k * b > 0 by {
        MulAtLeast(k, b);
      }
      assert k * a >= 0 by {
        assert k * a == a * k;
      }
      ModScale(k, a, b);
      GcdScale(k, b, a % b);
    }
  }

  /** a divided by a positive k, as a magnitude. */
  function Quotient(a: nat, k: int): nat
    requires k > 0
  {
    a / k
  }

  /** Dividing both arguments by their Gcd leaves coprime numbers. */
  lemma GcdOfReduced(a: nat, b: nat)
    requires a > 0 || b > 0
    ensures Gcd(a, b) > 0 && Gcd(Quotient(a, Gcd(a, b)), Quotient(b, Gcd(a, b))) == 1
  {
    GcdDividesBoth(a, b);
    var g := Gcd(a, b);
    ReducedCoprime(a, b, g);
  }

  lemma ReducedCoprime(a: nat, b: nat, g: int)
    requires Divides(g, a) && Divides(g, b) && Gcd(a, b) == g
    ensures Gcd(a / g, b / g) == 1
  {
    var p: nat := a / g;
    var q: nat := b / g;
    DividesQuotient(g, a);
    DividesQuotient(g, b);
    CofactorsCoprime(g, p, q);
  }

  lemma CofactorsCoprime(g: int, p: nat, q: nat)
    requires g > 0 && Gcd(g * p, g * q) == g
    ensures Gcd(p, q) == 1
  {
    GcdScale(g, p, q);
    MulCancel(g, Gcd(p, q), 1);
  }

  lemma CommonDivisorDividesScaledGcd(a: nat, c: nat, b: nat)
    requires Divides(a, a * c) && Divides(a, b * c)
    ensures Divides(a, Gcd(c * a, c * b))
  {
    assert c * a == a * c && c * b == b * c;
    CommonDivisorDividesGcd(a, c * a, c * b);
  }

  /**
   * Euclid's lemma: a number coprime to b that divides b * c divides c.
   */
  lemma CoprimeDividesFactor(a: nat, b: nat, c: nat)
    requires a > 0 && c > 0 && Gcd(a, b) == 1 && Divides(a, b * c)
    ensures Divides(a, c)
  {
    GcdScale(c, a, b);
    DividesMultiple(a, c);
    CommonDivisorDividesScaledGcd(a, c, b);
  }
}
