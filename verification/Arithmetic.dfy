/** The integer arithmetic under the codec: 64-bit words, powers, Euclid, congruence. */
module Arithmetic {

  const TWO_64: int := 0x1_0000_0000_0000_0000

  /** Go's uint64. Every value stored in one is checked to fit. */
  type uint64 = x: int | 0 <= x < TWO_64

  // ---- powers -------------------------------------------------------------

  function Pow(base: nat, exp: nat): nat {
    if exp == 0 then 1 else Pow(base, exp - 1) * base
  }

  lemma {:induction false} PowPositive(base: nat, exp: nat)
    requires 1 <= base
    ensures 1 <= Pow(base, exp)
  {
    if exp > 0 {
      PowPositive(base, exp - 1);
    }
  }

  lemma {:induction false} PowMonotone(base: nat, low: nat, high: nat)
    requires 1 <= base && low <= high
    ensures Pow(base, low) <= Pow(base, high)
    decreases high
  {
    if low < high {
      PowMonotone(base, low, high - 1);
      PowPositive(base, high - 1);
      assert Pow(base, high - 1) * 1 <= Pow(base, high - 1) * base;
    }
  }

  lemma {:induction false} PowAdd(base: nat, m: nat, n: nat)
    ensures Pow(base, m + n) == Pow(base, m) * Pow(base, n)
    decreases n
  {
    if n > 0 {
      PowAdd(base, m, n - 1);
      assert Pow(base, m) * Pow(base, n - 1) * base == Pow(base, m) * (Pow(base, n - 1) * base);
    }
  }

  lemma MulMonotone(a: nat, b: nat, c: nat, d: nat)
    requires a <= c && b <= d
    ensures a * b <= c * d
  {
    assert a * b <= c * b;
    assert c * b <= c * d;
  }

  // ---- division -----------------------------------------------------------

  /** The only multiple of n strictly between -n and n is zero. */
  lemma SmallMultiple(n: int, t: int)
    requires -n < n * t < n
    ensures t == 0
  {
    assert t >= 1 ==> n * t >= n;
    assert t <= -1 ==> n * t <= -n;
  }

  /** Quotient and remainder are the only such pair. */
  lemma DivModUnique(a: int, n: int, q: int, r: int)
    requires 0 < n && 0 <= r < n && a == n * q + r
    ensures a / n == q && a % n == r
  {
    var t := q - a / n;
    assert n * t == a % n - r by {
      assert a == n * (a / n) + a % n;
      assert n * t == n * q - n * (a / n);
    }
    SmallMultiple(n, t);
  }

  /** Two numbers agree modulo n when n divides their difference. */
  lemma ModCongruent(a: int, b: int, n: int, k: int)
    requires 0 < n && a - b == n * k
    ensures a % n == b % n
  {
    assert a == n * (b / n + k) + b % n by {
      assert b == n * (b / n) + b % n;
      assert n * (b / n + k) == n * (b / n) + n * k;
    }
    DivModUnique(a, n, b / n + k, b % n);
  }

  lemma DivLess(a: nat, n: nat, bound: nat)
    requires 0 < n && a < bound * n
    ensures a / n < bound
  {
    var q := a / n;
    assert a == q * n + a % n;
    assert q >= bound ==> q * n >= bound * n;
  }

  /** Adding to a remainder or to the number itself comes to the same. */
  lemma ReducedSum(a: int, c: int, n: int)
    requires 0 < n
    ensures (a % n + c) % n == (a + c) % n
  {
    assert a == n * (a / n) + a % n;
    ModCongruent(a + c, a % n + c, n, a / n);
  }

  // ---- greatest common divisor -------------------------------------------

  ghost predicate Divides(d: nat, n: nat) {
    exists q: nat :: n == d * q
  }

  /** Euclid's algorithm, the reference for Layout.GcdLoop. */
  function Gcd(a: nat, b: nat): nat
    decreases b
  {
    if b == 0 then a else Gcd(b, a % b)
  }

  /** Bezout: the greatest common divisor is an integer combination of its arguments. */
  lemma {:induction false} Bezout(a: nat, b: nat) returns (x: int, y: int)
    ensures a * x + b * y == Gcd(a, b)
    decreases b
  {
    if b == 0 {
      x, y := 1, 0;
    } else {
      var x', y' := Bezout(b, a % b);
      x, y := y', x' - (a / b) * y';
      assert a == b * (a / b) + a % b;
      BezoutStep(a, b, a / b, a % b, x', y');
    }
  }

  lemma BezoutStep(a: int, b: int, t: int, r: int, x: int, y: int)
    requires a == b * t + r
    ensures a * y + b * (x - t * y) == b * x + r * y
  {
    calc {
      a * y + b * (x - t * y);
      a * y + b * x - b * (t * y);
      a * y + b * x - (b * t) * y;
      b * x + (a - b * t) * y;
    }
  }

  lemma {:induction false} GcdDividesBoth(a: nat, b: nat)
    ensures Divides(Gcd(a, b), a) && Divides(Gcd(a, b), b)
    decreases b
  {
    var g := Gcd(a, b);
    if b == 0 {
      assert a == g * 1 && b == g * 0;
    } else {
      GcdDividesBoth(b, a % b);
      assert a == b * (a / b) + a % b;
      DividesStep(g, a, b, a / b, a % b);
    }
  }

  lemma DividesStep(g: nat, a: nat, b: nat, t: nat, r: nat)
    requires Divides(g, b) && Divides(g, r) && a == b * t + r
    ensures Divides(g, a)
  {
    var p: nat :| b == g * p;
    var q: nat :| r == g * q;
    CommonFactor(g, p, q, t, 1);
    var multiple: nat := p * t + q;
    assert a == g * multiple;
  }

  /** A common divisor divides every integer combination that is positive. */
  lemma DividesCombination(d: nat, a: nat, b: nat, x: int, y: int)
    requires Divides(d, a) && Divides(d, b) && a * x + b * y > 0
    ensures Divides(d, a * x + b * y) && d <= a * x + b * y
  {
    var p: nat :| a == d * p;
    var q: nat :| b == d * q;
    var k := p * x + q * y;
    CommonFactor(d, p, q, x, y);
    PositiveMultiple(d, k);
    var multiple: nat := k;
    assert a * x + b * y == d * multiple;
  }

  lemma CommonFactor(d: int, p: int, q: int, x: int, y: int)
    ensures (d * p) * x + (d * q) * y == d * (p * x + q * y)
  {
    assert (d * p) * x == d * (p * x);
    assert (d * q) * y == d * (q * y);
  }

  lemma PositiveMultiple(d: nat, k: int)
    requires d * k > 0
    ensures k >= 1 && d <= d * k
  {
    assert k <= 0 ==> d * k <= 0;
    assert k >= 1 ==> d * k >= d;
  }

  /** Euclid computes the greatest common divisor: it divides both, and every common divisor divides it. */
  lemma GcdIsGreatest(a: nat, b: nat)
    requires a > 0 || b > 0
    ensures Gcd(a, b) > 0
    ensures Divides(Gcd(a, b), a) && Divides(Gcd(a, b), b)
    ensures forall d: nat :: Divides(d, a) && Divides(d, b) ==> Divides(d, Gcd(a, b)) && d <= Gcd(a, b)
  {
    GcdDividesBoth(a, b);
    GcdPositive(a, b);
    var x, y := Bezout(a, b);
    forall d: nat | Divides(d, a) && Divides(d, b)
      ensures Divides(d, Gcd(a, b)) && d <= Gcd(a, b)
    {
      DividesCombination(d, a, b, x, y);
    }
  }

  lemma {:induction false} GcdPositive(a: nat, b: nat)
    requires a > 0 || b > 0
    ensures Gcd(a, b) > 0
    decreases b
  {
    if b > 0 {
      GcdPositive(b, a % b);
    }
  }

  /** A number coprime to the modulus has an inverse modulo it. */
  lemma InverseExists(m: nat, n: nat) returns (u: nat, k: int)
    requires 1 <= n && Gcd(m, n) == 1
    ensures u < n && m * u == 1 + n * k
  {
    var x, y := Bezout(m, n);
    u := x % n;
    var q := x / n;
    k := -y - m * q;
    assert x == n * q + u;
    Reduced(m, n, q, u, y);
  }

  lemma Reduced(m: int, n: int, q: int, u: int, y: int)
    requires m * (n * q + u) + n * y == 1
    ensures m * u == 1 + n * (-y - m * q)
  {
    assert m * (n * q + u) == n * (m * q) + m * u;
    assert n * (-y - m * q) == -(n * y) - n * (m * q);
  }

  /** Multiplying by a number coprime to n permutes {0..n-1}: no two inputs share a product. */
  lemma CoprimeInjective(m: nat, n: nat, i: nat, j: nat)
    requires 1 <= n && Gcd(m, n) == 1 && i < n && j < n
    requires exists k: int :: m * i - m * j == n * k
    ensures i == j
  {
    var u, e := InverseExists(m, n);
    var k: int :| m * i - m * j == n * k;
    DifferenceIsMultiple(m, n, u, e, i - j, k);
    SmallMultiple(n, u * k - e * (i - j));
  }

  lemma DifferenceIsMultiple(m: int, n: int, u: int, e: int, d: int, k: int)
    requires m * u == 1 + n * e && m * d == n * k
    ensures d == n * (u * k - e * d)
  {
    calc {
      n * (u * k - e * d);
      n * (u * k) - n * (e * d);
      u * (n * k) - n * (e * d);
      u * (m * d) - n * (e * d);
      (m * u) * d - (n * e) * d;
      (m * u - n * e) * d;
      d;
    }
  }

  /** Multiplication by a number coprime to n reaches every residue. */
  lemma CoprimeOnto(m: nat, n: nat, target: int) returns (i: nat)
    requires 1 <= n && Gcd(m, n) == 1
    ensures i < n && (i * m) % n == target % n
  {
    var u, e := InverseExists(m, n);
    var product := u * target;
    i := product % n;
    var q := product / n;
    assert product == n * q + i;
    InverseCancels(m, n, u, e, target, q, i);
    ModCongruent(i * m, target, n, e * target - q * m);
  }

  lemma InverseCancels(m: int, n: int, u: int, e: int, target: int, q: int, i: int)
    requires m * u == 1 + n * e && u * target == n * q + i
    ensures i * m - target == n * (e * target - q * m)
  {
    calc {
      i * m;
      (u * target - n * q) * m;
      (u * target) * m - (n * q) * m;
      (m * u) * target - n * (q * m);
      (1 + n * e) * target - n * (q * m);
      target + n * (e * target) - n * (q * m);
    }
    assert n * (e * target - q * m) == n * (e * target) - n * (q * m);
  }

  /** An affine step with a multiplier coprime to n is injective on {0..n-1}. */
  lemma AffineInjective(m: nat, c: int, n: nat, i: nat, j: nat)
    requires 1 <= n && Gcd(m, n) == 1 && i < n && j < n
    requires (i * m + c) % n == (j * m + c) % n
    ensures i == j
  {
    hide Gcd;
    var k := AffineDifference(m, c, n, i, j);
    CoprimeInjective(m, n, i, j);
  }

  lemma AffineDifference(m: nat, c: int, n: nat, i: nat, j: nat) returns (k: int)
    requires 1 <= n && (i * m + c) % n == (j * m + c) % n
    ensures m * i - m * j == n * k
  {
    var p, q := i * m + c, j * m + c;
    k := p / n - q / n;
    CongruentDiffer(p, q, n);
  }

  lemma CongruentDiffer(p: int, q: int, n: nat)
    requires 1 <= n && p % n == q % n
    ensures p - q == n * (p / n - q / n)
  {
    var a, b := p / n, q / n;
    assert p == n * a + p % n;
    assert q == n * b + q % n;
    assert n * (a - b) == n * a - n * b;
  }

  /** Two neighbours are coprime, so the largest residue always works as a multiplier. */
  lemma PredecessorCoprime(n: nat)
    requires 2 <= n
    ensures Gcd(n - 1, n) == 1
  {
    assert (n - 1) % n == n - 1 by { DivModUnique(n - 1, n, 0, n - 1); }
    assert n % (n - 1) == 1 % (n - 1) by { ModCongruent(n, 1, n - 1, 1); }
    if n == 2 {
      assert Gcd(1, 2) == Gcd(2, 1) == Gcd(1, 0);
    } else {
      DivModUnique(1, n - 1, 0, 1);
      assert Gcd(n - 1, n) == Gcd(n, n - 1) == Gcd(n - 1, 1) == Gcd(1, 0);
    }
  }
}
