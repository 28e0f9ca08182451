/** The exact rational value type `Fraction` (GaussianElimination/Math.cs:16-239).

    A fraction is a numerator/denominator pair that the constructor keeps in
    lowest terms with a positive denominator. Every operation is proved against
    Dafny's exact `real` through `Value`. */
module Fractions {
  import opened Numbers
  import opened Results

  datatype Frac = Frac(num: int, den: int)

  /** The constructor's invariant: positive denominator, no common factor. */
  predicate Reduced(f: Frac) {
    f.den > 0 && Gcd(Abs(f.num), f.den) == 1
  }

  /** Every `Fraction` object the source can hold satisfies the invariant. */
  type Fraction = f: Frac | Reduced(f) witness Frac(0, 1)

  const Zero: Fraction := Frac(0, 1)
  const One: Fraction := Frac(1, 1)

  /** The rational number a fraction denotes. */
  function Value(f: Fraction): real {
    f.num as real / f.den as real
  }

  // ---------------------------------------------------------------------------
  // Construction

  /** The normalising part of the constructor, for a non-zero denominator:
      divide both parts by their gcd and move the denominator's sign into the
      numerator, with C#'s truncating division. */
  function Normalize(n: int, d: int): (f: Fraction)
    requires d != 0
    ensures f.num * d == n * f.den
  {
    var g := Gcd(Abs(n), Abs(d));
    var sign := Quot(d, Abs(d));
    NormalizeParts(n, d);
    Frac(Quot(n * sign, g), Quot(Abs(d), g))
  }

  lemma NormalizeParts(n: int, d: int)
    requires d != 0
    ensures var g := Gcd(Abs(n), Abs(d));
            var sign := Quot(d, Abs(d));
            var num := Quot(n * sign, g);
            var den := Quot(Abs(d), g);
            && den > 0 && Gcd(Abs(num), den) == 1 && num * d == n * den
  {
    var g := Gcd(Abs(n), Abs(d));
    var sign := Quot(d, Abs(d));
    SignOf(d);
    assert Abs(n * sign) == Abs(n);
    DividesAbs(g, n * sign);
    var num := Quot(n * sign, g);
    var den := Quot(Abs(d), g);
    assert Abs(num) == Abs(n) / g && den == Abs(d) / g;
    GcdOfQuotients(Abs(n), Abs(d));
    CrossAfterCancel(n, d, sign, g, num, den);
  }

  lemma SignOf(d: int)
    requires d != 0
    ensures Quot(d, Abs(d)) == (if d < 0 then -1 else 1)
  {
    DivModUnique(Abs(d), Abs(d), 1, 0);
  }

  lemma CrossAfterCancel(n: int, d: int, sign: int, g: int, num: int, den: int)
    requires g != 0 && sign * d == Abs(d)
    requires num * g == n * sign && den * g == Abs(d)
    ensures num * d == n * den
  {
    assert (num * d) * g == (n * den) * g by {
      calc {
        (num * d) * g;
        (num * g) * d;
        (n * sign) * d;
        n * (sign * d);
        n * Abs(d);
        n * (den * g);
        (n * den) * g;
      }
    }
    CancelFactor(num * d, n * den, g);
  }

  lemma CancelFactor(x: int, y: int, g: int)
    requires g != 0 && x * g == y * g
    ensures x == y
  {
    assert (x - y) * g == 0;
  }

  /** `new Fraction(numerator, denominator)`: fails with a division-by-zero
      error on a zero denominator; otherwise yields the reduced fraction with
      the same rational value, and zero becomes exactly 0/1. */
  function Make(n: int, d: int): (r: Result<Fraction>)
    ensures r.Err? <==> d == 0
    ensures r.Err? ==> r.error == DivideByZero
    ensures r.Ok? ==> r.value.num * d == n * r.value.den
    ensures r.Ok? ==> Value(r.value) == n as real / d as real
    ensures r.Ok? ==> (n == 0 <==> r.value == Zero)
  {
    if d == 0 then Err(DivideByZero)
    else
      var f := Normalize(n, d);
      CrossEqualsValue(f.num, f.den, n, d);
      ZeroIsCanonical(f);
      Ok(f)
  }

  /** `new Fraction(numerator)` and the implicit conversion from `int`: the
      fraction i/1, already in lowest terms. */
  function FromInt(i: int): (f: Fraction)
    ensures f.num == i && f.den == 1
    ensures Value(f) == i as real
  {
    Normalize(i, 1)
  }

  /** The only reduced fraction with numerator zero is 0/1. */
  lemma ZeroIsCanonical(f: Fraction)
    ensures f.num == 0 <==> f == Zero
  {
    if f.num == 0 {
      assert Gcd(0, f.den) == Gcd(f.den, 0);
    }
  }

  /** Representation is canonical: two reduced fractions with equal
      cross-products (equal rational value) are the same pair. */
  lemma UniqueRepresentation(a: Fraction, b: Fraction)
    requires a.num * b.den == b.num * a.den
    ensures a == b
  {
    var n1, d1, n2, d2 := Abs(a.num), a.den, Abs(b.num), b.den;
    AbsMul(a.num, b.den);
    AbsMul(b.num, a.den);
    assert n1 * d2 == n2 * d1;
    DividesMultiple(d1, n2);
    assert d1 * n2 == n1 * d2;
    EuclidLemma(d1, n1, d2);
    DividesMultiple(d2, n1);
    assert d2 * n1 == n2 * d1;
    EuclidLemma(d2, n2, d1);
    DividesAntisymmetric(d1, d2);
    CancelFactor(a.num, b.num, d1);
  }

  lemma AbsMul(x: int, y: nat)
    ensures Abs(x * y) == Abs(x) * y
  {
    if x < 0 {
      assert x * y == -(Abs(x) * y);
    }
  }

  /** `Value` is one-to-one on reduced fractions. */
  lemma ValueInjective(a: Fraction, b: Fraction)
    ensures a == b <==> Value(a) == Value(b)
  {
    CrossEqualsValue(a.num, a.den, b.num, b.den);
    if Value(a) == Value(b) {
      UniqueRepresentation(a, b);
    }
  }

  lemma NormalizeValue(n: int, d: int)
    requires d != 0
    ensures Value(Normalize(n, d)) == n as real / d as real
  {
    var f := Normalize(n, d);
    CrossEqualsValue(f.num, f.den, n, d);
  }

  /** Normalising a pair that is already reduced returns it unchanged. */
  lemma NormalizeReduced(f: Fraction)
    ensures Normalize(f.num, f.den) == f
  {
    UniqueRepresentation(Normalize(f.num, f.den), f);
  }

  /** Scaling numerator and denominator by the same non-zero factor does not
      change the constructed fraction, nor whether construction fails. */
  lemma MakeScaleInvariant(n: int, d: int, k: int)
    requires k != 0
    ensures Make(k * n, k * d) == Make(n, d)
  {
    hide Normalize, Numbers.Quot, Numbers.Gcd, Make, Value;
    if d != 0 {
      var a, b := Make(k * n, k * d).value, Make(n, d).value;
      assert (k * n) * d == n * (k * d) by {
        Numbers.MulSwap(k, n, d);
      }
      CrossEqualsValue(k * n, k * d, n, d);
      assert Value(a) == Value(b);
      ValueInjective(a, b);
    }
  }

  // ---------------------------------------------------------------------------
  // Arithmetic (GaussianElimination/Math.cs:73-104)

  /** `f1 + f2`: cross-multiplied sum, renormalised. */
  function Add(a: Fraction, b: Fraction): (r: Fraction)
    ensures Value(r) == Value(a) + Value(b)
  {
    var n, d := a.num * b.den + b.num * a.den, a.den * b.den;
    NormalizeValue(n, d);
    SumOfQuotients(a.num, a.den, b.num, b.den);
    Normalize(n, d)
  }

  /** Unary `-f`: negates the numerator, keeps the denominator. */
  function Neg(a: Fraction): (r: Fraction)
    ensures r.num == -a.num && r.den == a.den
    ensures Value(r) == -Value(a)
  {
    NegateReduced(a);
    NegatedValue(a);
    Normalize(-a.num, a.den)
  }

  lemma NegatedValue(a: Fraction)
    ensures Value(Frac(-a.num, a.den)) == -Value(a)
  {
    assert (-a.num) as real == -(a.num as real);
  }

  lemma NegateReduced(a: Fraction)
    ensures Normalize(-a.num, a.den) == Frac(-a.num, a.den)
  {
    assert Abs(-a.num) == Abs(a.num);
    var negated: Fraction := Frac(-a.num, a.den);
    NormalizeReduced(negated);
  }

  /** `f1 - f2`: cross-multiplied difference, renormalised. */
  function Sub(a: Fraction, b: Fraction): (r: Fraction)
    ensures Value(r) == Value(a) - Value(b)
  {
    var n, d := a.num * b.den - b.num * a.den, a.den * b.den;
    NormalizeValue(n, d);
    DifferenceOfQuotients(a.num, a.den, b.num, b.den);
    Normalize(n, d)
  }

  /** `f1 * f2`: product of numerators over product of denominators. */
  function Mul(a: Fraction, b: Fraction): (r: Fraction)
    ensures Value(r) == Value(a) * Value(b)
  {
    var n, d := a.num * b.num, a.den * b.den;
    NormalizeValue(n, d);
    ProductOfQuotients(a.num, a.den, b.num, b.den);
    Normalize(n, d)
  }

  /** `f1 / f2`: the constructor receives `f1.num * f2.den` over
      `f1.den * f2.num`, so it fails exactly when the divisor is zero. */
  function Div(a: Fraction, b: Fraction): (r: Result<Fraction>)
    ensures r.Err? <==> Value(b) == 0.0
    ensures r.Err? ==> r.error == DivideByZero
    ensures r.Ok? ==> Value(r.value) == Value(a) / Value(b)
  {
    var n, d := a.num * b.den, a.den * b.num;
    ZeroValue(b);
    QuotientOfQuotients(a.num, a.den, b.num, b.den);
    Make(n, d)
  }

  // ---------------------------------------------------------------------------
  // Comparison (GaussianElimination/Math.cs:112-152, 206)

  /** `==`: pairwise comparison of the components, which for reduced fractions
      is equality of the rational values. */
  function Eq(a: Fraction, b: Fraction): (r: bool)
    ensures r <==> Value(a) == Value(b)
    ensures r <==> a == b
  {
    ValueInjective(a, b);
    a.num == b.num && a.den == b.den
  }

  /** `!=`: the negation of `==`. */
  function Ne(a: Fraction, b: Fraction): (r: bool)
    ensures r <==> Value(a) != Value(b)
  {
    !Eq(a, b)
  }

  /** `<=` compares cross-products. */
  function Le(a: Fraction, b: Fraction): (r: bool)
    ensures r <==> Value(a) <= Value(b)
  {
    CrossOrdersValue(a.num, a.den, b.num, b.den);
    CrossEqualsValue(a.num, a.den, b.num, b.den);
    a.num * b.den <= b.num * a.den
  }

  /** `<` compares cross-products. */
  function Lt(a: Fraction, b: Fraction): (r: bool)
    ensures r <==> Value(a) < Value(b)
  {
    CrossOrdersValue(a.num, a.den, b.num, b.den);
    a.num * b.den < b.num * a.den
  }

  /** `>=` compares cross-products. */
  function Ge(a: Fraction, b: Fraction): (r: bool)
    ensures r <==> Value(a) >= Value(b)
  {
    CrossOrdersValue(b.num, b.den, a.num, a.den);
    CrossEqualsValue(a.num, a.den, b.num, b.den);
    a.num * b.den >= b.num * a.den
  }

  /** `>` compares cross-products. */
  function Gt(a: Fraction, b: Fraction): (r: bool)
    ensures r <==> Value(a) > Value(b)
  {
    CrossOrdersValue(b.num, b.den, a.num, a.den);
    a.num * b.den > b.num * a.den
  }

  /** `Int32.CompareTo`: -1, 0 or 1. */
  function CompareInts(x: int, y: int): (r: int)
    ensures r == -1 <==> x < y
    ensures r == 0 <==> x == y
    ensures r == 1 <==> x > y
  {
    if x < y then -1 else if x > y then 1 else 0
  }

  /** The non-null arm of `CompareTo(Fraction)`, comparing the
      cross-products and hence the rational values. As written the member never
      reaches this arm; `References` models why. */
  function CompareTo(a: Fraction, b: Fraction): (r: int)
    ensures r == -1 <==> Value(a) < Value(b)
    ensures r == 0 <==> Eq(a, b)
    ensures r == 1 <==> Value(a) > Value(b)
  {
    CrossOrdersValue(a.num, a.den, b.num, b.den);
    CrossOrdersValue(b.num, b.den, a.num, a.den);
    CrossEqualsValue(a.num, a.den, b.num, b.den);
    CompareInts(a.num * b.den, b.num * a.den)
  }

  // ---------------------------------------------------------------------------
  // Algebra of the canonical form: identities hold as equalities of pairs.

  lemma ZeroAndOne()
    ensures Value(Zero) == 0.0 && Value(One) == 1.0
    ensures FromInt(0) == Zero && FromInt(1) == One
  {
  }

  /** A fraction is the zero fraction exactly when its value is zero. */
  lemma ZeroIffValueZero(f: Fraction)
    ensures f == Zero <==> Value(f) == 0.0
  {
    ZeroValue(f);
    ZeroIsCanonical(f);
  }

  lemma MulByZero(f: Fraction)
    ensures Mul(f, Zero) == Zero && Mul(Zero, f) == Zero
  {
    ZeroIffValueZero(Mul(f, Zero));
    ZeroIffValueZero(Mul(Zero, f));
  }

  lemma MulByOne(f: Fraction)
    ensures Mul(f, One) == f && Mul(One, f) == f
  {
    ValueInjective(Mul(f, One), f);
    ValueInjective(Mul(One, f), f);
  }

  lemma AddZero(f: Fraction)
    ensures Add(f, Zero) == f && Add(Zero, f) == f
  {
    ValueInjective(Add(f, Zero), f);
    ValueInjective(Add(Zero, f), f);
  }

  /** Negation is an involution. */
  lemma NegInvolutive(f: Fraction)
    ensures Neg(Neg(f)) == f
  {
  }

  /** The comparison operators form a strict total order on fractions,
      consistent with `==`. */
  lemma OrderIsTotal(a: Fraction, b: Fraction, c: Fraction)
    ensures Lt(a, b) && Lt(b, c) ==> Lt(a, c)
    ensures Le(a, b) && Le(b, c) ==> Le(a, c)
    ensures Lt(a, b) || Eq(a, b) || Gt(a, b)
    ensures !(Lt(a, b) && Gt(a, b)) && !(Lt(a, b) && Eq(a, b)) && !(Gt(a, b) && Eq(a, b))
    ensures Le(a, b) <==> Lt(a, b) || Eq(a, b)
    ensures Ge(a, b) <==> Le(b, a)
    ensures Gt(a, b) <==> Lt(b, a)
    ensures Le(a, b) && Le(b, a) ==> a == b
  {
  }

  // ---------------------------------------------------------------------------
  // Reals

  /** Equal cross-products are equal quotients. */
  lemma CrossEqualsValue(n1: int, d1: int, n2: int, d2: int)
    requires d1 != 0 && d2 != 0
    ensures n1 * d2 == n2 * d1 <==> n1 as real / d1 as real == n2 as real / d2 as real
  {
    var x, y := n1 as real / d1 as real, n2 as real / d2 as real;
    assert n1 as real == x * d1 as real;
    assert n2 as real == y * d2 as real;
    assert (n1 * d2) as real == n1 as real * d2 as real;
    assert (n2 * d1) as real == n2 as real * d1 as real;
    assert n1 as real * d2 as real == x * (d1 as real * d2 as real);
    assert n2 as real * d1 as real == y * (d1 as real * d2 as real);
    if x == y {
      assert (n1 * d2) as real == (n2 * d1) as real;
    }
    if n1 * d2 == n2 * d1 {
      assert x * (d1 as real * d2 as real) == y * (d1 as real * d2 as real);
    }
  }

  /** With positive denominators, the cross-products order the quotients. */
  lemma CrossOrdersValue(n1: int, d1: int, n2: int, d2: int)
    requires d1 > 0 && d2 > 0
    ensures n1 * d2 < n2 * d1 <==> n1 as real / d1 as real < n2 as real / d2 as real
  {
    var x, y := n1 as real / d1 as real, n2 as real / d2 as real;
    var p := d1 as real * d2 as real;
    assert p > 0.0;
    assert n1 as real == x * d1 as real;
    assert n2 as real == y * d2 as real;
    assert (n1 * d2) as real == x * p;
    assert (n2 * d1) as real == y * p;
  }

  lemma ZeroValue(f: Fraction)
    ensures Value(f) == 0.0 <==> f.num == 0
  {
  }

  lemma SumOfQuotients(n1: int, d1: int, n2: int, d2: int)
    requires d1 != 0 && d2 != 0
    ensures (n1 * d2 + n2 * d1) as real / (d1 * d2) as real
            == n1 as real / d1 as real + n2 as real / d2 as real
  {
    var x, y := n1 as real / d1 as real, n2 as real / d2 as real;
    var p := d1 as real * d2 as real;
    assert p != 0.0;
    assert n1 as real == x * d1 as real;
    assert n2 as real == y * d2 as real;
    assert (n1 * d2 + n2 * d1) as real == (x + y) * p;
    assert (d1 * d2) as real == p;
  }

  lemma DifferenceOfQuotients(n1: int, d1: int, n2: int, d2: int)
    requires d1 != 0 && d2 != 0
    ensures (n1 * d2 - n2 * d1) as real / (d1 * d2) as real
            == n1 as real / d1 as real - n2 as real / d2 as real
  {
    var x, y := n1 as real / d1 as real, n2 as real / d2 as real;
    var p := d1 as real * d2 as real;
    assert p != 0.0;
    assert n1 as real == x * d1 as real;
    assert n2 as real == y * d2 as real;
    assert (n1 * d2 - n2 * d1) as real == (x - y) * p;
    assert (d1 * d2) as real == p;
  }

  lemma ProductOfQuotients(n1: int, d1: int, n2: int, d2: int)
    requires d1 != 0 && d2 != 0
    ensures (n1 * n2) as real / (d1 * d2) as real
            == (n1 as real / d1 as real) * (n2 as real / d2 as real)
  {
    var x, y := n1 as real / d1 as real, n2 as real / d2 as real;
    var p := d1 as real * d2 as real;
    assert p != 0.0;
    assert n1 as real == x * d1 as real;
    assert n2 as real == y * d2 as real;
    assert (n1 * n2) as real == (x * y) * p;
    assert (d1 * d2) as real == p;
  }

  lemma QuotientOfQuotients(n1: int, d1: int, n2: int, d2: int)
    requires d1 != 0 && d2 != 0
    ensures n2 != 0 ==> (n1 * d2) as real / (d1 * n2) as real
                        == (n1 as real / d1 as real) / (n2 as real / d2 as real)
  {
    if n2 != 0 {
      QuotientOfNonZero(n1, d1, n2, d2);
    }
  }

  lemma QuotientOfNonZero(n1: int, d1: int, n2: int, d2: int)
    requires d1 != 0 && d2 != 0 && n2 != 0
    ensures (n1 * d2) as real / (d1 * n2) as real
            == (n1 as real / d1 as real) / (n2 as real / d2 as real)
  {
    var x, y := n1 as real / d1 as real, n2 as real / d2 as real;
    assert y != 0.0;
    assert n1 as real == x * d1 as real;
    assert n2 as real == y * d2 as real;
    assert (n1 * d2) as real == x * d1 as real * d2 as real;
    assert (d1 * n2) as real == y * d1 as real * d2 as real;
  }
}
