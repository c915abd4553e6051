/** The fraction shown on every component: `size/BASE` divided through by
    the greatest common divisor that Euclid's algorithm finds with
    JavaScript's remainder operator. */
module Fractions {

  /** A numerator and a denominator. */
  datatype Fraction = Fraction(num: int, den: int)

  function Abs(x: int): nat
  {
    if x < 0 then -x else x
  }

  /** JavaScript's `/` followed by truncation: the quotient rounded towards zero. */
  function TruncQuot(a: int, b: int): int
    requires b != 0
  {
    var q := Abs(a) / Abs(b);
    if (a < 0) == (b < 0) then q else -q
  }

  /** JavaScript's `%` on integers: the remainder takes the sign of the
      dividend and is smaller than the divisor in magnitude. */
  function JsRem(a: int, b: int): (r: int)
    requires b != 0
    ensures r == a - b * TruncQuot(a, b)
    ensures Abs(r) < Abs(b)
    ensures a >= 0 ==> r >= 0
    ensures a <= 0 ==> r <= 0
  {
    var m := Abs(a) % Abs(b);
    assert Abs(a) == Abs(b) * (Abs(a) / Abs(b)) + m;
    if a < 0 then -m else m
  }

  /** `d` divides `n`. */
  ghost predicate Divides(d: int, n: int)
  {
    exists k :: n == d * k
  }

  /** Euclid's algorithm as `GCD` runs it. */
  function Gcd(a: int, b: int): int
    decreases Abs(b)
  {
    if b == 0 then a else Gcd(b, JsRem(a, b))
  }

  /** The loop of `GCD`. */
  method EuclidGcd(a: int, b: int) returns (g: int)
    ensures g == Gcd(a, b)
  {
    var x, y := a, b;
    while y != 0
      invariant Gcd(x, y) == Gcd(a, b)
      decreases Abs(y)
    {
      var c := y;
      y := JsRem(x, y);
      x := c;
    }
    g := x;
  }

  lemma DividesSelf(d: int)
    ensures Divides(d, d) && Divides(d, 0)
  {
    assert d == d * 1 && 0 == d * 0;
  }

  /** If `d` divides `b` and `a % b`, it divides `a`. */
  lemma DividesFromRem(d: int, a: int, b: int)
    requires b != 0 && Divides(d, b) && Divides(d, JsRem(a, b))
    ensures Divides(d, a)
  {
    var q := TruncQuot(a, b);
    var kb :| b == d * kb;
    var kr :| JsRem(a, b) == d * kr;
    assert a == b * q + JsRem(a, b);
    assert b * q == d * (kb * q);
    assert a == d * (kb * q + kr);
  }

  /** If `d` divides `a` and `b`, it divides `a % b`. */
  lemma DividesRem(d: int, a: int, b: int)
    requires b != 0 && Divides(d, a) && Divides(d, b)
    ensures Divides(d, JsRem(a, b))
  {
    var q := TruncQuot(a, b);
    var ka :| a == d * ka;
    var kb :| b == d * kb;
    assert b * q == d * (kb * q);
    assert JsRem(a, b) == d * (ka - kb * q);
  }

  /** The result of `GCD` divides both arguments. */
  lemma {:induction false} GcdDivides(a: int, b: int)
    ensures Divides(Gcd(a, b), a) && Divides(Gcd(a, b), b)
    decreases Abs(b)
  {
    if b == 0 {
      DividesSelf(a);
    } else {
      GcdDivides(b, JsRem(a, b));
      DividesFromRem(Gcd(a, b), a, b);
    }
  }

  /** Every common divisor of the arguments divides the result of `GCD`. */
  lemma {:induction false} GcdGreatest(a: int, b: int, d: int)
    requires Divides(d, a) && Divides(d, b)
    ensures Divides(d, Gcd(a, b))
    decreases Abs(b)
  {
    if b != 0 {
      DividesRem(d, a, b);
      GcdGreatest(b, JsRem(a, b), d);
    }
  }

  /** The result of `GCD` is zero only when both arguments are, and it is
      positive when both arguments are non-negative and not both zero. */
  lemma {:induction false} GcdSign(a: int, b: int)
    ensures Gcd(a, b) == 0 <==> a == 0 && b == 0
    ensures a >= 0 && b >= 0 ==> Gcd(a, b) >= 0
    decreases Abs(b)
  {
    if b != 0 {
      GcdSign(b, JsRem(a, b));
    }
  }

  /** A non-zero multiple of `g` is at least as large as `g`. */
  lemma MulAtLeast(g: int, j: int)
    ensures g != 0 && j != 0 ==> Abs(g * j) >= Abs(g)
  {
    if j > 0 {
      MulAtLeastPositive(g, j);
    } else if j < 0 {
      MulAtLeastPositive(g, -j);
      assert g * j == -(g * -j);
    }
  }

  lemma MulAtLeastPositive(g: int, j: int)
    requires j > 0
    ensures Abs(g * j) >= Abs(g)
  {
    assert g * j == g + g * (j - 1);
    if g > 0 {
      assert g * (j - 1) >= 0;
    } else if g < 0 {
      assert g * (j - 1) <= 0;
    }
  }

  /** A divisor `g != 0` of `n` divides it exactly under Dafny's `/`. */
  lemma ExactDivision(g: int, n: int)
    requires g != 0 && Divides(g, n)
    ensures n == g * (n / g)
  {
    var k :| n == g * k;
    var q, m := n / g, n % g;
    assert n == g * q + m && 0 <= m < Abs(g);
    assert g * (k - q) == g * k - g * q;
    MulAtLeast(g, k - q);
  }

  lemma Associate(a: int, b: int, c: int)
    ensures a * (b * c) == (a * b) * c == (b * a) * c
  {
  }

  /** Both parts of `n/d` divided by `g`, for a common divisor `g != 0`. */
  lemma Quotients(g: int, n: int, d: int)
    requires g != 0 && Divides(g, n) && Divides(g, d)
    ensures n == g * (n / g) && d == g * (d / g)
  {
    ExactDivision(g, n);
    ExactDivision(g, d);
  }

  /** Only 1 and -1 divide both parts. */
  ghost predicate Coprime(x: int, y: int)
  {
    forall e :: Divides(e, x) && Divides(e, y) ==> e == 1 || e == -1
  }

  /** `reduce(n + '/' + d)` on the numbers: both parts divided by `GCD(n, d)`. */
  function Reduce(n: int, d: int): (r: Fraction)
    requires d != 0
    ensures r.den != 0
    ensures r.num * d == n * r.den
  {
    var g := Gcd(n, d);
    GcdSign(n, d);
    GcdDivides(n, d);
    Quotients(g, n, d);
    var p, q := n / g, d / g;
    Associate(p, g, q);
    Associate(g, p, q);
    Fraction(p, q)
  }

  /** From `g == (e * g) * m` with `g != 0`, `e` is a unit. */
  lemma UnitFactor(g: int, e: int, m: int)
    requires g != 0 && g == (e * g) * m
    ensures e == 1 || e == -1
  {
    Associate(e, g, m);
    Associate(g, e, m);
    assert g * (e * m - 1) == g * (e * m) - g;
    MulAtLeast(g, e * m - 1);
    assert e * m == 1;
    MulAtLeast(e, m);
  }

  /** A common divisor of the reduced parts is a unit. */
  lemma CommonDivisorIsUnit(n: int, d: int, e: int)
    requires d != 0
    requires Divides(e, Reduce(n, d).num) && Divides(e, Reduce(n, d).den)
    ensures e == 1 || e == -1
  {
    var g := Gcd(n, d);
    GcdSign(n, d);
    GcdDivides(n, d);
    Quotients(g, n, d);
    var p, q := n / g, d / g;
    var a :| p == e * a;
    var b :| q == e * b;
    Associate(g, e, a);
    Associate(g, e, b);
    assert n == (e * g) * a && d == (e * g) * b;
    GcdGreatest(n, d, e * g);
    var m :| g == (e * g) * m;
    UnitFactor(g, e, m);
  }

  /** The reduced fraction is in lowest terms. */
  lemma ReduceCoprime(n: int, d: int)
    requires d != 0
    ensures Coprime(Reduce(n, d).num, Reduce(n, d).den)
  {
    forall e | Divides(e, Reduce(n, d).num) && Divides(e, Reduce(n, d).den) ensures e == 1 || e == -1 {
      CommonDivisorIsUnit(n, d, e);
    }
  }

  /** The fractions the initial layout shows. */
  lemma InitialFractions()
    ensures Reduce(9, 24) == Fraction(3, 8)
    ensures Reduce(15, 24) == Fraction(5, 8)
    ensures Reduce(12, 24) == Fraction(1, 2)
    ensures Reduce(24, 24) == Fraction(1, 1)
  {
  }

  /** A component of size 0 shows `0/1`; a negative size keeps the sign
      JavaScript's remainder gives the divisor, so `-12/24` reads `1/-2`. */
  lemma EdgeFractions()
    ensures Reduce(0, 24) == Fraction(0, 1)
    ensures Reduce(-12, 24) == Fraction(1, -2)
  {
  }
}
