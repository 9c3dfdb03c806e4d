/**
 * The "basic math functions" of the engine: `gcd` and `Clamp`, together
 * with the C++ integer division and remainder they are written with, and
 * the number theory (divisibility, Bezout) the fraction proofs rely on.
 */
module BasicMath {

  function Abs(x: int): nat {
    if x < 0 then -x else x
  }

  /** C++ integer division `a / b`: the quotient truncated toward zero. */
  function CDiv(a: int, b: int): (q: int)
    requires b != 0
    ensures Abs(q) == Abs(a) / Abs(b)
    ensures q != 0 ==> ((q < 0) <==> ((a < 0) != (b < 0)))
  {
    var d: int := NatDiv(Abs(a), Abs(b));
    if (a < 0) == (b < 0) then d else -d
  }

  /** Division of magnitudes, which never goes below zero. */
  function NatDiv(x: nat, y: nat): (d: nat)
    requires y > 0
    ensures y * d <= x < y * (d + 1)
  {
    x / y
  }

  /**
   * C++ integer remainder `a % b`: it takes the sign of the dividend, its
   * magnitude is below that of the divisor, and it completes the division
   * identity with `CDiv`.
   */
  function CRem(a: int, b: int): (r: int)
    requires b != 0
    ensures Abs(r) < Abs(b)
    ensures r == 0 || ((r < 0) <==> (a < 0))
    ensures a == b * CDiv(a, b) + r
    ensures Abs(r) == Abs(a) % Abs(b)
  {
    var m: int := NatMod(Abs(a), Abs(b));
    if a < 0 then -m else m
  }

  /** Remainder of magnitudes, with the division identity it completes. */
  function NatMod(x: nat, y: nat): (m: nat)
    requires y > 0
    ensures m < y && m == x % y
    ensures x == y * NatDiv(x, y) + m
  {
    x % y
  }

  /** The source's recursive `gcd`, over C++ remainders; its sign may be negative. */
  function Gcd(a: int, b: int): int
    decreases Abs(b)
  {
    if b == 0 then a else Gcd(b, CRem(a, b))
  }

  /** Euclid's algorithm on magnitudes; the reference the C++ `gcd` is compared with. */
  function NatGcd(x: nat, y: nat): nat
    decreases y
  {
    if y == 0 then x else NatGcd(y, x % y)
  }

  ghost predicate Divides(d: int, a: int) {
    exists k :: a == d * k
  }

  /** The magnitude of the C++ `gcd` is the greatest common divisor of the magnitudes. */
  lemma {:induction false} GcdMagnitude(a: int, b: int)
    ensures Abs(Gcd(a, b)) == NatGcd(Abs(a), Abs(b))
    decreases Abs(b)
  {
    if b != 0 {
      GcdMagnitude(b, CRem(a, b));
    }
  }

  lemma {:induction false} NatGcdDividesBoth(x: nat, y: nat)
    ensures Divides(NatGcd(x, y), x) && Divides(NatGcd(x, y), y)
    decreases y
  {
    var g := NatGcd(x, y);
    if y == 0 {
      assert x == g * 1 && y == g * 0;
    } else {
      NatGcdDividesBoth(y, x % y);
      var ky :| y == g * ky;
      var kr :| x % y == g * kr;
      assert x == y * (x / y) + x % y;
      assert x == g * (ky * (x / y) + kr) by {
        calc {
          x;
          y * (x / y) + x % y;
          (g * ky) * (x / y) + g * kr;
          g * (ky * (x / y) + kr);
        }
      }
    }
  }

  /** Bezout's identity: the gcd is an integer combination of its arguments. */
  lemma {:induction false} Bezout(x: nat, y: nat) returns (s: int, t: int)
    ensures s * x + t * y == NatGcd(x, y)
    decreases y
  {
    if y == 0 {
      s, t := 1, 0;
    } else {
      var s', t' := Bezout(y, x % y);
      assert x % y == x - y * (x / y);
      s, t := t', s' - t' * (x / y);
      calc {
        s * x + t * y;
        t' * x + (s' - t' * (x / y)) * y;
        s' * y + t' * (x - y * (x / y));
        s' * y + t' * (x % y);
      }
    }
  }

  /** Every common divisor of `x` and `y` divides their gcd. */
  lemma CommonDivisorDividesGcd(d: int, x: nat, y: nat)
    requires Divides(d, x) && Divides(d, y)
    ensures Divides(d, NatGcd(x, y))
  {
    var s, t := Bezout(x, y);
    var kx :| x == d * kx;
    var ky :| y == d * ky;
    MulSwap(s, d, kx);
    MulSwap(t, d, ky);
    assert NatGcd(x, y) == d * (s * kx) + d * (t * ky);
    assert NatGcd(x, y) == d * (s * kx + t * ky);
  }

  lemma MulSwap(s: int, d: int, k: int)
    ensures s * (d * k) == d * (s * k)
  {
  }

  lemma NatGcdZero(x: nat, y: nat)
    ensures NatGcd(x, y) == 0 <==> x == 0 && y == 0
  {
    if NatGcd(x, y) == 0 {
      NatGcdDividesBoth(x, y);
      var kx :| x == 0 * kx;
      var ky :| y == 0 * ky;
    }
  }

  lemma UnitFactor(h: nat, k: int)
    requires h * k == 1
    ensures h == 1
  {
  }

  lemma CancelLeft(g: int, a: int, b: int)
    requires g != 0 && g * a == g * b
    ensures a == b
  {
    assert g * (a - b) == 0;
  }

  lemma Distribute(g: int, s: int, x: int, t: int, y: int)
    ensures g * (s * x + t * y) == s * (g * x) + t * (g * y)
  {
  }

  lemma ScaleDown(g: int, s: int, x': int, t: int, y': int)
    requires g > 0 && s * (g * x') + t * (g * y') == g
    ensures s * x' + t * y' == 1
  {
    Distribute(g, s, x', t, y');
    CancelLeft(g, s * x' + t * y', 1);
  }

  /**
   * Dividing two numbers by their (non-zero) gcd leaves numbers whose gcd
   * is 1: the quotients are in lowest terms.
   */
  lemma QuotientsCoprime(x: nat, y: nat, g: nat, x': nat, y': nat)
    requires g == NatGcd(x, y) && g > 0
    requires x == g * x' && y == g * y'
    ensures NatGcd(x', y') == 1
  {
    var s, t := Bezout(x, y);
    ScaleDown(g, s, x', t, y');
    var h := NatGcd(x', y');
    NatGcdDividesBoth(x', y');
    var hx :| x' == h * hx;
    var hy :| y' == h * hy;
    Distribute(h, s, hx, t, hy);
    UnitFactor(h, s * hx + t * hy);
  }

  /**
   * Euclid's lemma in the form the fraction proofs need: if `d` is coprime
   * with `n` and divides `n * m`, it divides `m`.
   */
  lemma CoprimeDividesFactor(d: nat, n: int, m: int)
    requires NatGcd(Abs(n), d) == 1
    requires Divides(d, n * m)
    ensures Divides(d, m)
  {
    var s, t := Bezout(Abs(n), d);
    var k :| n * m == d * k;
    var sn := if n < 0 then -s else s;
    assert sn * n == s * Abs(n);
    EuclidStep(d, n, m, sn, t, k);
  }

  lemma EuclidStep(d: int, n: int, m: int, sn: int, t: int, k: int)
    requires sn * n + t * d == 1 && n * m == d * k
    ensures m == d * (sn * k + t * m)
  {
    calc {
      m;
      (sn * n + t * d) * m;
      sn * (n * m) + t * d * m;
      sn * (d * k) + t * d * m;
      d * (sn * k + t * m);
    }
  }

  /**
   * The source's `Clamp`: the value itself when it lies in [min, max],
   * otherwise the nearer bound; the upper bound is checked first.
   */
  function Clamp(value: int, min: int, max: int): (r: int)
    ensures min <= max ==> min <= r <= max
    ensures min <= value <= max ==> r == value
    ensures r == value || r == min || r == max
    ensures value > max ==> r == max
    ensures value <= max && value < min ==> r == min
  {
    if value > max then max
    else if value < min then min
    else value
  }
}
