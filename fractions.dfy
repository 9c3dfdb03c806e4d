/**
 * Exact rational arithmetic of the current revision: the `Fraction` value,
 * its normalisation, the four operators, unary minus and the comparisons.
 * Integers are unbounded here (the source uses 32-bit `int`, 64-bit for
 * `<=`); every contract speaks of the rational value `Value(f)`.
 */
module Fractions {
  import opened BasicMath

  datatype Fraction = Fraction(numerator: int, denominator: int)

  /** The rational number a fraction with a non-zero denominator stands for. */
  function Value(f: Fraction): real
    requires f.denominator != 0
  {
    f.numerator as real / f.denominator as real
  }

  /** Positive denominator and lowest terms: the form `NormalizeFraction` produces. */
  predicate IsNormalized(f: Fraction) {
    f.denominator > 0 && NatGcd(Abs(f.numerator), f.denominator) == 1
  }

  // ---------------------------------------------------------------------
  // Helpers on integers and reals
  // ---------------------------------------------------------------------

  /** A truncating division by a positive divisor of the magnitude is exact. */
  lemma CDivExact(a: int, g: nat)
    requires g > 0 && Divides(g, Abs(a))
    ensures g * CDiv(a, g) == a
  {
    var k :| Abs(a) == g * k;
    FactorSign(g, k, Abs(a));
    DivOfProduct(g, k);
  }

  lemma FactorSign(g: int, k: int, a: int)
    requires g > 0 && a == g * k
    ensures a >= 0 ==> k >= 0
    ensures a > 0 ==> k > 0
  {
  }

  lemma DivOfProduct(g: nat, k: nat)
    requires g > 0
    ensures (g * k) / g == k
  {
    var q := (g * k) / g;
    var r := (g * k) % g;
    assert g * k == g * q + r;
    assert g * (k - q) == r;
    SmallMultiple(g, k - q, r);
  }

  lemma SmallMultiple(g: int, m: int, r: int)
    requires g > 0 && 0 <= r < g && g * m == r
    ensures m == 0
  {
  }

  lemma ScaledQuotient(a: int, b: int, g: int)
    requires b != 0 && g != 0
    ensures (g * a) as real / (g * b) as real == a as real / b as real
  {
    var ga, gb := g as real, b as real;
    assert (g * a) as real == ga * a as real;
    assert (g * b) as real == ga * gb;
  }

  /** Two quotients are equal exactly when the cross products are. */
  lemma CrossEqual(na: int, da: int, nb: int, db: int)
    requires da != 0 && db != 0
    ensures (na as real / da as real == nb as real / db as real) <==> na * db == nb * da
  {
    var x := na as real / da as real;
    var y := nb as real / db as real;
    assert x * da as real == na as real;
    assert y * db as real == nb as real;
    assert (na * db) as real == x * (da as real * db as real);
    assert (nb * da) as real == y * (da as real * db as real);
    assert da as real * db as real != 0.0;
  }

  /** Over positive denominators, quotients are ordered as their cross products. */
  lemma CrossLess(na: int, da: int, nb: int, db: int)
    requires da > 0 && db > 0
    ensures (na as real / da as real < nb as real / db as real) <==> na * db < nb * da
  {
    var x := na as real / da as real;
    var y := nb as real / db as real;
    var p := da as real * db as real;
    assert p > 0.0;
    assert x * da as real == na as real;
    assert y * db as real == nb as real;
    assert (na * db) as real == x * p;
    assert (nb * da) as real == y * p;
    if x < y {
      assert x * p < y * p;
    }
    if x * p < y * p {
      assert x < y;
    }
  }

  lemma CrossLessEq(na: int, da: int, nb: int, db: int)
    requires da > 0 && db > 0
    ensures (na as real / da as real <= nb as real / db as real) <==> na * db <= nb * da
  {
    CrossLess(nb, db, na, da);
  }

  // ---------------------------------------------------------------------
  // NormalizeFraction
  // ---------------------------------------------------------------------

  /**
   * The effect of `NormalizeFraction` on a fraction's value: make the
   * denominator positive, then divide both parts by |gcd|. The 0/0 input
   * divides by zero in the source and is excluded. A zero denominator is
   * kept (the result is +-1/0).
   */
  function Normalize(f: Fraction): (r: Fraction)
    requires f.numerator != 0 || f.denominator != 0
    ensures f.denominator != 0 ==> IsNormalized(r) && Value(r) == Value(f)
    ensures f.denominator != 0 && f.numerator == 0 ==> r == Fraction(0, 1)
    ensures f.denominator == 0 ==> r.denominator == 0 && Abs(r.numerator) == 1
  {
    var n := if f.denominator < 0 then -f.numerator else f.numerator;
    var d := if f.denominator < 0 then -f.denominator else f.denominator;
    var g := Abs(Gcd(n, d));
    GcdMagnitude(n, d);
    NatGcdZero(Abs(n), Abs(d));
    NatGcdDividesBoth(Abs(n), Abs(d));
    CDivExact(n, g);
    CDivExact(d, g);
    var r := Fraction(CDiv(n, g), CDiv(d, g));
    if f.denominator != 0 then
      NormalizedParts(f, n, d, g, r);
      r
    else
      r
  }

  lemma NormalizedParts(f: Fraction, n: int, d: int, g: nat, r: Fraction)
    requires f.denominator != 0
    requires n == (if f.denominator < 0 then -f.numerator else f.numerator)
    requires d == (if f.denominator < 0 then -f.denominator else f.denominator)
    requires g == NatGcd(Abs(n), Abs(d)) && g > 0
    requires g * r.numerator == n && g * r.denominator == d
    ensures IsNormalized(r) && Value(r) == Value(f)
    ensures f.numerator == 0 ==> r == Fraction(0, 1)
  {
    SignFlipValue(f, n, d);
    NormalizedForm(n, d, g, r);
    NormalizedValue(f, n, d, g, r);
    if f.numerator == 0 {
      assert NatGcd(0, r.denominator) == r.denominator;
    }
  }

  lemma NormalizedForm(n: int, d: int, g: nat, r: Fraction)
    requires d > 0 && g == NatGcd(Abs(n), Abs(d)) && g > 0
    requires g * r.numerator == n && g * r.denominator == d
    ensures IsNormalized(r)
    ensures n == 0 ==> r.numerator == 0
  {
    FactorSign(g, r.denominator, d);
    AbsOfProduct(g, r.numerator, n);
    QuotientsCoprime(Abs(n), Abs(d), g, Abs(r.numerator), r.denominator);
  }

  lemma NormalizedValue(f: Fraction, n: int, d: int, g: nat, r: Fraction)
    requires f.denominator != 0 && r.denominator != 0 && g > 0
    requires d != 0 && n as real / d as real == Value(f)
    requires g * r.numerator == n && g * r.denominator == d
    ensures Value(r) == Value(f)
  {
    ScaledQuotient(r.numerator, r.denominator, g);
  }

  lemma AbsOfProduct(g: nat, k: int, a: int)
    requires g > 0 && a == g * k
    ensures Abs(a) == g * Abs(k)
  {
  }

  lemma SignFlipValue(f: Fraction, n: int, d: int)
    requires f.denominator != 0
    requires n == (if f.denominator < 0 then -f.numerator else f.numerator)
    requires d == (if f.denominator < 0 then -f.denominator else f.denominator)
    ensures d > 0 && n as real / d as real == Value(f)
  {
    if f.denominator < 0 {
      ScaledQuotient(f.numerator, f.denominator, -1);
    }
  }

  /** Lowest terms with a positive denominator is a canonical form: one per value. */
  lemma NormalizedUnique(a: Fraction, b: Fraction)
    requires IsNormalized(a) && IsNormalized(b)
    requires Value(a) == Value(b)
    ensures a == b
  {
    var na, da, nb, db := a.numerator, a.denominator, b.numerator, b.denominator;
    CrossEqual(na, da, nb, db);
    assert na * db == da * nb;
    assert Divides(da, na * db);
    CoprimeDividesFactor(da, na, db);
    assert nb * da == db * na;
    assert Divides(db, nb * da);
    CoprimeDividesFactor(db, nb, da);
    MutualDivisors(da, db);
    CancelLeft(da, na, nb);
  }

  lemma MutualDivisors(x: nat, y: nat)
    requires x > 0 && y > 0 && Divides(x, y) && Divides(y, x)
    ensures x == y
  {
    var k1 :| y == x * k1;
    var k2 :| x == y * k2;
    FactorSign(x, k1, y);
    assert x * (k1 * k2) == x * 1;
    CancelLeft(x, k1 * k2, 1);
    UnitFactor(k1, k2);
  }

  /** Normalising an already normalised fraction changes nothing. */
  lemma NormalizeIdempotent(f: Fraction)
    requires IsNormalized(f)
    ensures Normalize(f) == f
  {
    NormalizedUnique(Normalize(f), f);
  }

  // ---------------------------------------------------------------------
  // Operators
  // ---------------------------------------------------------------------

  /** `operator*(Fraction)`: component products, normalised. */
  function Mul(a: Fraction, b: Fraction): (r: Fraction)
    requires a.denominator != 0 && b.denominator != 0
    ensures IsNormalized(r) && Value(r) == Value(a) * Value(b)
  {
    var t := Fraction(a.numerator * b.numerator, a.denominator * b.denominator);
    ProductValue(a.numerator, a.denominator, b.numerator, b.denominator);
    Normalize(t)
  }

  lemma ProductValue(na: int, da: int, nb: int, db: int)
    requires da != 0 && db != 0
    ensures da * db != 0
    ensures (na * nb) as real / (da * db) as real
         == (na as real / da as real) * (nb as real / db as real)
  {
    assert (na * nb) as real == na as real * nb as real;
    assert (da * db) as real == da as real * db as real;
  }

  /**
   * `operator/` as written: the zero-divisor guard constructs a value and
   * discards it, so a zero divisor reaches `NormalizeFraction` with a zero
   * denominator (and 0/0 divides by zero there, which is excluded here).
   */
  function Div(a: Fraction, b: Fraction): (r: Fraction)
    requires a.denominator != 0 && b.denominator != 0
    requires a.numerator != 0 || b.numerator != 0
    ensures b.numerator != 0 ==> IsNormalized(r) && Value(r) == Value(a) / Value(b)
    ensures b.numerator == 0 ==> r.denominator == 0
  {
    var t := Fraction(a.numerator * b.denominator, a.denominator * b.numerator);
    if b.numerator != 0 then
      QuotientValue(a.numerator, a.denominator, b.numerator, b.denominator);
      Normalize(t)
    else
      assert t.numerator != 0;
      Normalize(t)
  }

  lemma QuotientValue(na: int, da: int, nb: int, db: int)
    requires da != 0 && db != 0 && nb != 0
    ensures da * nb != 0
    ensures (na * db) as real / (da * nb) as real
         == (na as real / da as real) / (nb as real / db as real)
  {
    assert (na * db) as real == na as real * db as real;
    assert (da * nb) as real == da as real * nb as real;
  }

  /** The division the guard was meant to give: a zero divisor yields 0/1. */
  function DivChecked(a: Fraction, b: Fraction): (r: Fraction)
    requires a.denominator != 0 && b.denominator != 0
    ensures IsNormalized(r)
    ensures b.numerator == 0 ==> r == Fraction(0, 1)
    ensures b.numerator != 0 ==> Value(r) == Value(a) / Value(b)
  {
    if b.numerator == 0 then Fraction(0, 1) else Div(a, b)
  }

  /** As written, dividing one by zero yields 1/0, which is not a fraction. */
  lemma DivByZeroAsWritten()
    ensures Div(Fraction(1, 1), Fraction(0, 1)) == Fraction(1, 0)
    ensures DivChecked(Fraction(1, 1), Fraction(0, 1)) == Fraction(0, 1)
  {
  }

  /** `operator+`: cross-multiplies only when the denominators differ. */
  function Add(a: Fraction, b: Fraction): (r: Fraction)
    requires a.denominator != 0 && b.denominator != 0
    ensures IsNormalized(r) && Value(r) == Value(a) + Value(b)
  {
    if a.denominator != b.denominator then
      SumValue(a.numerator, a.denominator, b.numerator, b.denominator, 1);
      Normalize(Fraction(a.numerator * b.denominator + b.numerator * a.denominator,
                         a.denominator * b.denominator))
    else
      SameDenominatorSum(a.numerator, b.numerator, a.denominator, 1);
      Normalize(Fraction(a.numerator + b.numerator, a.denominator))
  }

  /** `operator-`: as `+` with the second numerator subtracted. */
  function Sub(a: Fraction, b: Fraction): (r: Fraction)
    requires a.denominator != 0 && b.denominator != 0
    ensures IsNormalized(r) && Value(r) == Value(a) - Value(b)
  {
    if a.denominator != b.denominator then
      SumValue(a.numerator, a.denominator, b.numerator, b.denominator, -1);
      Normalize(Fraction(a.numerator * b.denominator - b.numerator * a.denominator,
                         a.denominator * b.denominator))
    else
      SameDenominatorSum(a.numerator, b.numerator, a.denominator, -1);
      Normalize(Fraction(a.numerator - b.numerator, a.denominator))
  }

  lemma SumValue(na: int, da: int, nb: int, db: int, sign: int)
    requires da != 0 && db != 0 && (sign == 1 || sign == -1)
    ensures da * db != 0
    ensures (na * db + sign * (nb * da)) as real / (da * db) as real
         == na as real / da as real + sign as real * (nb as real / db as real)
  {
    var x := na as real / da as real;
    var y := nb as real / db as real;
    assert x * da as real == na as real;
    assert y * db as real == nb as real;
    assert (da * db) as real == da as real * db as real;
    assert (na * db + sign * (nb * da)) as real
        == (x + sign as real * y) * (da as real * db as real);
  }

  lemma SameDenominatorSum(na: int, nb: int, d: int, sign: int)
    requires d != 0 && (sign == 1 || sign == -1)
    ensures (na + sign * nb) as real / d as real
         == na as real / d as real + sign as real * (nb as real / d as real)
  {
  }

  /** Unary `operator-`: negates the numerator, keeps the denominator. */
  function Neg(a: Fraction): (r: Fraction)
    ensures r.denominator == a.denominator
    ensures a.denominator != 0 ==> Value(r) == -Value(a)
    ensures IsNormalized(a) ==> IsNormalized(r)
  {
    Fraction(-a.numerator, a.denominator)
  }

  // ---------------------------------------------------------------------
  // Comparisons
  // ---------------------------------------------------------------------

  /** `operator<(Fraction)` without its floating-point overflow fallback. */
  function Less(a: Fraction, b: Fraction): (r: bool)
    ensures a.denominator > 0 && b.denominator > 0 ==> (r <==> Value(a) < Value(b))
  {
    CrossLessImplied(a, b);
    if a.denominator != b.denominator then
      a.numerator * b.denominator < b.numerator * a.denominator
    else
      a.numerator < b.numerator
  }

  /** `operator>(Fraction)` without its floating-point overflow fallback. */
  function Greater(a: Fraction, b: Fraction): (r: bool)
    ensures a.denominator > 0 && b.denominator > 0 ==> (r <==> Value(a) > Value(b))
  {
    CrossLessImplied(b, a);
    if a.denominator != b.denominator then
      a.numerator * b.denominator > b.numerator * a.denominator
    else
      a.numerator > b.numerator
  }

  /** `operator<=`: cross products (64-bit in the source) when denominators differ. */
  function LessEq(a: Fraction, b: Fraction): (r: bool)
    ensures a.denominator > 0 && b.denominator > 0 ==> (r <==> Value(a) <= Value(b))
  {
    CrossLessImplied(b, a);
    if a.denominator != b.denominator then
      a.numerator * b.denominator <= b.numerator * a.denominator
    else
      a.numerator <= b.numerator
  }

  lemma CrossLessImplied(a: Fraction, b: Fraction)
    ensures a.denominator > 0 && b.denominator > 0 ==>
      (Value(a) < Value(b) <==>
        (if a.denominator != b.denominator
         then a.numerator * b.denominator < b.numerator * a.denominator
         else a.numerator < b.numerator))
  {
    if a.denominator > 0 && b.denominator > 0 {
      CrossLess(a.numerator, a.denominator, b.numerator, b.denominator);
    }
  }

  lemma IntCompare(a: Fraction, value: int)
    ensures a.denominator > 0 ==>
      ((a.numerator < value * a.denominator) <==> Value(a) < value as real) &&
      ((a.numerator > value * a.denominator) <==> Value(a) > value as real)
  {
    if a.denominator > 0 {
      CrossLess(a.numerator, a.denominator, value, 1);
      CrossLess(value, 1, a.numerator, a.denominator);
    }
  }

  lemma CrossEqualImplied(a: Fraction, b: Fraction)
    ensures a.denominator != 0 && b.denominator != 0 ==>
      ((a.numerator * b.denominator == b.numerator * a.denominator) <==> Value(a) == Value(b))
  {
    if a.denominator != 0 && b.denominator != 0 {
      CrossEqual(a.numerator, a.denominator, b.numerator, b.denominator);
    }
  }

  /** `operator<(int)`: the numerator against value times denominator. */
  function LessInt(a: Fraction, value: int): (r: bool)
    ensures a.denominator > 0 ==> (r <==> Value(a) < value as real)
  {
    IntCompare(a, value);
    a.numerator < value * a.denominator
  }

  /** `operator>(int)`: the numerator against value times denominator. */
  function GreaterInt(a: Fraction, value: int): (r: bool)
    ensures a.denominator > 0 ==> (r <==> Value(a) > value as real)
  {
    IntCompare(a, value);
    a.numerator > value * a.denominator
  }

  /** `operator!=`: cross products when denominators differ. */
  function NotEqual(a: Fraction, b: Fraction): (r: bool)
    ensures a.denominator != 0 && b.denominator != 0 ==> (r <==> Value(a) != Value(b))
  {
    CrossEqualImplied(a, b);
    if a.denominator != b.denominator then
      a.numerator * b.denominator != b.numerator * a.denominator
    else
      a.numerator != b.numerator
  }

  /**
   * `operator==` as written: two zero numerators compare equal; otherwise
   * both sides are divided by their (signed) gcd, and when the
   * denominators then differ only this side's parts are cross-multiplied,
   * so the final denominators agree only if this side's was 1.
   */
  function Equal(a: Fraction, b: Fraction): (r: bool)
    requires a.denominator != 0 && b.denominator != 0
    ensures a.numerator == 0 && b.numerator == 0 ==> r
    ensures r ==> Value(a) == Value(b)
  {
    if a.numerator == 0 && b.numerator == 0 then true
    else
      var gb := Gcd(b.numerator, b.denominator);
      var ga := Gcd(a.numerator, a.denominator);
      ReducedBySignedGcd(b);
      ReducedBySignedGcd(a);
      var b' := Fraction(CDiv(b.numerator, gb), CDiv(b.denominator, gb));
      var a' := Fraction(CDiv(a.numerator, ga), CDiv(a.denominator, ga));
      CrossEqual(a'.numerator, a'.denominator, b'.numerator, b'.denominator);
      if a'.denominator != b'.denominator then
        a'.numerator * b'.denominator == b'.numerator * a'.denominator
        && a'.denominator * b'.denominator == b'.denominator
      else
        a'.numerator == b'.numerator && a'.denominator == b'.denominator
  }

  lemma GcdNonZero(f: Fraction)
    requires f.denominator != 0
    ensures Gcd(f.numerator, f.denominator) != 0
  {
    GcdMagnitude(f.numerator, f.denominator);
    NatGcdZero(Abs(f.numerator), Abs(f.denominator));
  }

  /** Dividing both parts by their signed gcd keeps the value and a non-zero denominator. */
  lemma ReducedBySignedGcd(f: Fraction)
    requires f.denominator != 0
    ensures Gcd(f.numerator, f.denominator) != 0
    ensures var g := Gcd(f.numerator, f.denominator);
      var f' := Fraction(CDiv(f.numerator, g), CDiv(f.denominator, g));
      f'.denominator != 0 && Value(f') == Value(f)
  {
    var g := Gcd(f.numerator, f.denominator);
    GcdNonZero(f);
    GcdMagnitude(f.numerator, f.denominator);
    NatGcdDividesBoth(Abs(f.numerator), Abs(f.denominator));
    SignedExact(f.numerator, g);
    SignedExact(f.denominator, g);
    var f' := Fraction(CDiv(f.numerator, g), CDiv(f.denominator, g));
    ScaledQuotient(f'.numerator, f'.denominator, g);
  }

  lemma SignedExact(a: int, g: int)
    requires g != 0 && Divides(Abs(g), Abs(a))
    ensures g * CDiv(a, g) == a
  {
    CDivExact(a, Abs(g));
    var q := CDiv(a, Abs(g));
    assert Abs(g) * q == a;
    if g < 0 {
      assert CDiv(a, g) == -q;
    }
  }

  /** On normalised fractions `operator==` is exactly equality of values. */
  lemma EqualComplete(a: Fraction, b: Fraction)
    requires IsNormalized(a) && IsNormalized(b)
    ensures Equal(a, b) <==> Value(a) == Value(b)
  {
    if Value(a) == Value(b) {
      NormalizedUnique(a, b);
    }
  }

  // ---------------------------------------------------------------------
  // Algebraic laws of the operators on normalised fractions
  // ---------------------------------------------------------------------

  /** Subtracting what was added gives back the normalised original. */
  lemma AddSubCancel(a: Fraction, b: Fraction)
    requires IsNormalized(a) && b.denominator != 0
    ensures Sub(Add(a, b), b) == a
  {
    NormalizedUnique(Sub(Add(a, b), b), a);
  }

  /** Dividing by a non-zero factor undoes the multiplication. */
  lemma MulDivCancel(a: Fraction, b: Fraction)
    requires IsNormalized(a) && b.denominator != 0 && b.numerator != 0
    ensures Div(Mul(a, b), b) == a
  {
    var p := Mul(a, b);
    MulFacts(a, b, p);
    var q := Div(p, b);
    DivFacts(p, b, q);
    CancelByValue(a, b, p, q);
  }
  lemma MulFacts(a: Fraction, b: Fraction, p: Fraction)
    requires a.denominator != 0 && b.denominator != 0 && p == Mul(a, b)
    ensures p.denominator > 0 && Value(p) == Value(a) * Value(b)
  {}
  lemma DivFacts(p: Fraction, b: Fraction, q: Fraction)
    requires p.denominator != 0 && b.denominator != 0 && b.numerator != 0 && q == Div(p, b)
    ensures IsNormalized(q) && Value(q) == Value(p) / Value(b)
  {}
  lemma CancelByValue(a: Fraction, b: Fraction, p: Fraction, q: Fraction)
    requires IsNormalized(a) && b.denominator != 0 && b.numerator != 0
    requires p.denominator != 0 && Value(p) == Value(a) * Value(b)
    requires IsNormalized(q) && Value(q) == Value(p) / Value(b)
    ensures q == a
  {
    var vb := Value(b);
    assert vb != 0.0 by {
      CrossEqual(b.numerator, b.denominator, 0, 1);
    }
    RealCancel(Value(a), vb);
    NormalizedUnique(q, a);
  }

  lemma RealCancel(x: real, y: real)
    requires y != 0.0
    ensures (x * y) / y == x
  {
  }

  /** Addition is commutative even though the operator cross-multiplies asymmetrically. */
  lemma AddCommutes(a: Fraction, b: Fraction)
    requires a.denominator != 0 && b.denominator != 0
    ensures Add(a, b) == Add(b, a)
  {
    NormalizedUnique(Add(a, b), Add(b, a));
  }

  /** Negation is an involution and `a + (-a)` is the normalised zero. */
  lemma NegInverse(a: Fraction)
    requires a.denominator != 0
    ensures Neg(Neg(a)) == a
    ensures Add(a, Neg(a)) == Fraction(0, 1)
  {
    NormalizedUnique(Add(a, Neg(a)), Fraction(0, 1));
  }

  // ---------------------------------------------------------------------
  // In-place members of the struct
  // ---------------------------------------------------------------------

  /** The struct's fields, for the members that update them in place. */
  class FractionCell {
    var numerator: int
    var denominator: int

    constructor (Num: int, Denom: int)
      ensures numerator == Num && denominator == Denom
    {
      numerator := Num;
      denominator := Denom;
    }

    function Get(): Fraction
      reads this
    {
      Fraction(numerator, denominator)
    }

    /** `NormalizeFraction()`: the fields take the normalised form of their value. */
    method NormalizeFraction()
      requires numerator != 0 || denominator != 0
      modifies this
      ensures Get() == Normalize(old(Get()))
    {
      if denominator < 0 {
        denominator := -denominator;
        numerator := -numerator;
      }
      var CurGCD := Abs(Gcd(numerator, denominator));
      GcdMagnitude(numerator, denominator);
      NatGcdZero(Abs(numerator), Abs(denominator));
      numerator := CDiv(numerator, CurGCD);
      denominator := CDiv(denominator, CurGCD);
    }

    /** `operator+=`: adds `other` in place, with the same cross-multiplication as `+`. */
    method AddAssign(other: Fraction)
      requires denominator != 0 && other.denominator != 0
      modifies this
      ensures Get() == Add(old(Get()), other)
      ensures IsNormalized(Get())
    {
      var OtherNumerator := other.numerator;
      if denominator != other.denominator {
        var temp := denominator;
        denominator := denominator * other.denominator;
        numerator := numerator * other.denominator;
        OtherNumerator := other.numerator * temp;
      }
      numerator := numerator + OtherNumerator;
      NormalizeFraction();
    }
  }
}
