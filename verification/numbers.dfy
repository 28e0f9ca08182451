/** Integer facts behind the fraction type: C#'s truncating division, divisibility
    and Euclid's greatest common divisor (GaussianElimination/Math.cs:47-62). */
module Numbers {

  function Abs(x: int): (r: nat)
    ensures r == x || r == -x
  {
    if x < 0 then -x else x
  }

  /** C#'s integer `/`: the quotient is truncated toward zero (unlike Dafny's
      Euclidean `/`, whose remainder is never negative). */
  function Quot(a: int, b: int): (q: int)
    requires b != 0
    ensures Abs(q) == Abs(a) / Abs(b)
    ensures Divides(Abs(b), a) ==> q * b == a
  {
    QuotExact(a, b);
    if (a < 0) == (b < 0) then Abs(a) / Abs(b) else -(Abs(a) / Abs(b))
  }

  /** The sign half of truncation: the quotient is non-negative when the
      operands agree in sign and non-positive when they differ, so an inexact
      quotient is rounded toward zero rather than down. */
  lemma QuotSign(a: int, b: int)
    requires b != 0
    ensures (a < 0) == (b < 0) ==> Quot(a, b) >= 0
    ensures (a < 0) != (b < 0) ==> Quot(a, b) <= 0
  {
  }

  lemma QuotExact(a: int, b: int)
    requires b != 0
    ensures Divides(Abs(b), a) ==> Abs(b) * (Abs(a) / Abs(b)) == Abs(a)
  {
    DividesAbs(Abs(b), a);
    if Divides(Abs(b), a) {
      DividesWitness(Abs(b), Abs(a));
    }
  }

  /** `d` divides `n`; zero divides only zero. */
  predicate Divides(d: nat, n: int) {
    if d == 0 then n == 0 else n % d == 0
  }

  lemma DividesWitness(d: nat, n: int)
    requires d > 0 && Divides(d, n)
    ensures n == d * (n / d)
  {
  }

  lemma DividesMultiple(d: nat, k: int)
    ensures Divides(d, d * k)
  {
    if d > 0 {
      ModOfMultiple(d, k, 0);
    }
  }

  /** Euclidean division is unique: if `x == y * q + r` with `0 <= r < y`, then
      `q` and `r` are the quotient and remainder. */
  lemma DivModUnique(x: int, y: int, q: int, r: int)
    requires y > 0 && 0 <= r < y && x == y * q + r
    ensures x / y == q && x % y == r
  {
    var q0, r0 := x / y, x % y;
    assert x == y * q0 + r0;
    var t := q - q0;
    assert y * t == r0 - r by {
      assert y * t == y * q - y * q0;
    }
    if t > 0 {
      MulAtLeast(y, t);
    }
  }

  lemma MulAtLeast(y: nat, t: int)
    requires t >= 1
    ensures y * t >= y
  {
    assert y * t == y * (t - 1) + y;
    assert y * (t - 1) >= 0;
  }

  lemma ModOfMultiple(d: nat, k: int, r: int)
    requires d > 0 && 0 <= r < d
    ensures (d * k + r) % d == r
  {
    DivModUnique(d * k + r, d, k, r);
  }

  /** A common divisor of `a` and `b` divides every integer combination of them. */
  lemma DividesCombination(d: nat, a: int, b: int, x: int, y: int)
    requires Divides(d, a) && Divides(d, b)
    ensures Divides(d, x * a + y * b)
  {
    if d > 0 {
      var ka, kb := a / d, b / d;
      DividesWitness(d, a);
      DividesWitness(d, b);
      calc {
        x * a + y * b;
        x * (d * ka) + y * (d * kb);
        d * (x * ka + y * kb);
      }
      DividesMultiple(d, x * ka + y * kb);
    }
  }

  lemma DividesTransitive(a: nat, b: nat, c: int)
    requires Divides(a, b) && Divides(b, c)
    ensures Divides(a, c)
  {
    if a > 0 && b > 0 {
      DividesWitness(a, b);
      DividesWitness(b, c);
      calc {
        c;
        b * (c / b);
        (a * (b / a)) * (c / b);
        a * ((b / a) * (c / b));
      }
      DividesMultiple(a, (b / a) * (c / b));
    }
  }

  lemma DividesAbs(d: nat, n: int)
    ensures Divides(d, n) <==> Divides(d, Abs(n))
  {
    if d > 0 && n < 0 {
      if Divides(d, n) {
        DividesCombination(d, n, 0, -1, 0);
      }
      if Divides(d, Abs(n)) {
        DividesCombination(d, Abs(n), 0, -1, 0);
      }
    }
  }

  /** A positive multiple of `d` is at least `d`. */
  lemma DividesBound(d: nat, n: nat)
    requires n > 0 && Divides(d, n)
    ensures 0 < d <= n
  {
    DividesWitness(d, n);
    var k := n / d;
    assert k >= 1;
    MulAtLeast(d, k);
  }

  lemma DividesAntisymmetric(a: nat, b: nat)
    requires a > 0 && b > 0 && Divides(a, b) && Divides(b, a)
    ensures a == b
  {
    DividesBound(a, b);
    DividesBound(b, a);
  }

  /** Euclid's algorithm, the `while (b > 0) b = a % (a = b)` loop of the
      source as a recursion: each step replaces `(a, b)` by `(b, a % b)`. The
      result is a common divisor, positive unless both inputs are zero. */
  function Gcd(a: nat, b: nat): (g: nat)
    decreases b
    ensures Divides(g, a) && Divides(g, b)
    ensures g == 0 <==> a == 0 && b == 0
  {
    if b == 0 then a
    else
      var g := Gcd(b, a % b);
      DividesCombination(g, b, a % b, a / b, 1);
      assert a == a / b * b + 1 * (a % b);
      g
  }

  /** Every common divisor of `a` and `b` divides `Gcd(a, b)`: it is the
      greatest one. */
  lemma {:induction false} GcdGreatest(a: nat, b: nat, d: nat)
    requires Divides(d, a) && Divides(d, b)
    ensures Divides(d, Gcd(a, b))
    decreases b
  {
    if b > 0 {
      DividesCombination(d, a, b, 1, -(a / b));
      assert a % b == 1 * a + -(a / b) * b;
      GcdGreatest(b, a % b, d);
    }
  }

  lemma ModScale(a: nat, b: nat, k: nat)
    requires b > 0 && k > 0
    ensures (a * k) % (b * k) == (a % b) * k
  {
    var q, r := a / b, a % b;
    assert a * k == (b * k) * q + r * k by {
      calc {
        a * k;
        (b * q + r) * k;
        (b * k) * q + r * k;
      }
    }
    assert r * k < b * k;
    DivModUnique(a * k, b * k, q, r * k);
  }

  /** Scaling both arguments scales the greatest common divisor. */
  lemma {:induction false} GcdScale(a: nat, b: nat, k: nat)
    requires k > 0
    ensures Gcd(a * k, b * k) == k * Gcd(a, b)
    decreases b
  {
    if b > 0 {
      ModScale(a, b, k);
      GcdScale(b, a % b, k);
    }
  }

  /** Dividing both arguments by their greatest common divisor leaves coprime
      numbers. */
  lemma GcdOfQuotients(a: nat, b: nat)
    requires b > 0
    ensures Gcd(a / Gcd(a, b), b / Gcd(a, b)) == 1
  {
    var g := Gcd(a, b);
    var a', b' := a / g, b / g;
    DividesWitness(g, a);
    DividesWitness(g, b);
    assert a' * g == a && b' * g == b;
    GcdScale(a', b', g);
    hide Gcd;
    assert g * Gcd(a', b') == g * 1;
    MulCancel(g, Gcd(a', b'), 1);
  }

  /** A positive factor cancels: `k * x == k * y` forces `x == y`. */
  lemma MulCancel(k: int, x: int, y: int)
    requires k > 0 && k * x == k * y
    ensures x == y
  {
    if x < y {
      assert k * y == k * x + k * (y - x);
      MulAtLeast(k, y - x);
    } else if y < x {
      assert k * x == k * y + k * (x - y);
      MulAtLeast(k, x - y);
    }
  }

  /** Moving a factor across a product: `(k * n) * d == n * (k * d)`. */
  lemma MulSwap(k: int, n: int, d: int)
    ensures (k * n) * d == n * (k * d)
  {
  }

  /** Euclid's lemma: if `a` divides `b * c` and shares no factor with `b`, it
      divides `c`. */
  lemma EuclidLemma(a: nat, b: nat, c: nat)
    requires Gcd(b, a) == 1 && Divides(a, b * c)
    ensures Divides(a, c)
  {
    if c == 0 {
      assert Divides(a, 0) by { DividesMultiple(a, 0); }
    } else {
      GcdScale(b, a, c);
      assert Gcd(b * c, a * c) == c;
      DividesMultiple(a, c);
      GcdGreatest(b * c, a * c, a);
    }
  }
}
