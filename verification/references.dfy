/** `Fraction` is a class, so a `Fraction` variable may hold `null`. This
    module models the members that take a possibly-null fraction
    (GaussianElimination/Math.cs:112-120, 185-206) and what C# does with them:
    reading `Numerator` or `Denominator` of `null` throws
    `NullReferenceException`.

    `Equals(Fraction)` and `CompareTo(Fraction)` guard against a null argument
    with `other != null`. Inside `Fraction` that is the overloaded `!=`, which
    calls the overloaded `==`, which reads `Numerator` of both operands, null
    included. So the guard itself throws, and both members throw on every
    call. `EqualsAsWritten` and `CompareToAsWritten` model them as written;
    `EqualsIntended` and `CompareToIntended` test the reference, as their doc
    comments describe. */
module References {
  import opened Fractions

  /** A `Fraction` reference: `null` or a fraction object. */
  datatype Ref = Null | Obj(f: Fraction)

  /** A `System.Object` passed to `Equals(object)` or
      `IComparable.CompareTo(object)`: `null`, a fraction, or anything else. */
  datatype Object = NullObject | FractionObject(fraction: Fraction) | OtherObject

  /** What evaluating an expression does: yields a value or throws
      `NullReferenceException`. */
  datatype Outcome<T> = Returns(value: T) | ThrowsNullReference

  /** `x.Numerator` and `x.Denominator` on a reference: null throws. */
  function Fields(x: Ref): (r: Outcome<(int, int)>)
    ensures r.ThrowsNullReference? <==> x.Null?
    ensures x.Obj? ==> r == Returns((x.f.num, x.f.den))
  {
    match x
    case Null => ThrowsNullReference
    case Obj(f) => Returns((f.num, f.den))
  }

  /** C#'s `a && b`: `b` is evaluated only when `a` yields true. */
  function AndAlso(a: Outcome<bool>, b: Outcome<bool>): (r: Outcome<bool>)
    ensures a.ThrowsNullReference? ==> r.ThrowsNullReference?
    ensures a == Returns(false) ==> r == Returns(false)
    ensures a == Returns(true) ==> r == b
  {
    match a
    case ThrowsNullReference => ThrowsNullReference
    case Returns(x) => if x then b else Returns(false)
  }

  /** C#'s `c ? a : b`: only the chosen branch is evaluated. */
  function Conditional<T>(c: Outcome<bool>, a: Outcome<T>, b: Outcome<T>): (r: Outcome<T>)
    ensures c.ThrowsNullReference? ==> r.ThrowsNullReference?
    ensures c == Returns(true) ==> r == a
    ensures c == Returns(false) ==> r == b
  {
    match c
    case ThrowsNullReference => ThrowsNullReference
    case Returns(x) => if x then a else b
  }

  /** `operator ==(Fraction f1, Fraction f2)` on references: it reads
      `f1.Numerator` and `f2.Numerator` first, so it throws when either
      operand is null, and otherwise is `Fractions.Eq`. */
  function EqRef(x: Ref, y: Ref): (r: Outcome<bool>)
    ensures r.ThrowsNullReference? <==> x.Null? || y.Null?
    ensures x.Obj? && y.Obj? ==> r == Returns(Eq(x.f, y.f))
  {
    match (Fields(x), Fields(y))
    case (Returns((xn, xd)), Returns((yn, yd))) => Returns(xn == yn && xd == yd)
    case _ => ThrowsNullReference
  }

  /** `operator !=(Fraction f1, Fraction f2)`: `!(f1 == f2)`, so it throws
      exactly when `==` does. */
  function NeRef(x: Ref, y: Ref): (r: Outcome<bool>)
    ensures r.ThrowsNullReference? <==> x.Null? || y.Null?
    ensures x.Obj? && y.Obj? ==> r == Returns(Ne(x.f, y.f))
  {
    match EqRef(x, y)
    case ThrowsNullReference => ThrowsNullReference
    case Returns(e) => Returns(!e)
  }

  /** `this.Numerator == other.Numerator && this.Denominator ==
      other.Denominator`, the part of `Equals(Fraction)` after its guard. */
  function SameFields(self: Fraction, other: Ref): (r: Outcome<bool>)
    ensures r.ThrowsNullReference? <==> other.Null?
    ensures other.Obj? ==> r == Returns(Eq(self, other.f))
  {
    match Fields(other)
    case ThrowsNullReference => ThrowsNullReference
    case Returns((n, d)) => Returns(self.num == n && self.den == d)
  }

  /** `(Numerator * other.Denominator).CompareTo(other.Numerator *
      Denominator)`, the non-null arm of `CompareTo(Fraction)`. */
  function CompareFields(self: Fraction, other: Ref): (r: Outcome<int>)
    ensures r.ThrowsNullReference? <==> other.Null?
    ensures other.Obj? ==> r == Returns(CompareTo(self, other.f))
  {
    match Fields(other)
    case ThrowsNullReference => ThrowsNullReference
    case Returns((n, d)) => Returns(CompareInts(self.num * d, n * self.den))
  }

  // ---------------------------------------------------------------------------
  // As written (GaussianElimination/Math.cs:192, 206)

  /** `Equals(Fraction other)` as written: `other != null && ...`, where
      `other != null` is the overloaded `!=` and throws. */
  function EqualsAsWritten(self: Fraction, other: Ref): (r: Outcome<bool>)
    ensures r == ThrowsNullReference
  {
    AndAlso(NeRef(other, Null), SameFields(self, other))
  }

  /** `CompareTo(Fraction other)` as written: `other != null ? ... : 1`, whose
      guard throws. */
  function CompareToAsWritten(self: Fraction, other: Ref): (r: Outcome<int>)
    ensures r == ThrowsNullReference
  {
    Conditional(NeRef(other, Null), CompareFields(self, other), Returns(1))
  }

  /** `Equals(object obj)` (Math.cs:185): `obj is Fraction` is a type test,
      false for null and for other types; a fraction goes on to
      `Equals(Fraction)`, which throws. */
  function EqualsObjectAsWritten(self: Fraction, obj: Object): (r: Outcome<bool>)
    ensures obj.FractionObject? <==> r.ThrowsNullReference?
    ensures !obj.FractionObject? ==> r == Returns(false)
  {
    if obj.FractionObject? then EqualsAsWritten(self, Obj(obj.fraction)) else Returns(false)
  }

  /** `IComparable.CompareTo(object obj)` (Math.cs:199): -1 for anything that
      is not a fraction; a fraction goes on to `CompareTo(Fraction)`, which
      throws. */
  function CompareToObjectAsWritten(self: Fraction, obj: Object): (r: Outcome<int>)
    ensures obj.FractionObject? <==> r.ThrowsNullReference?
    ensures !obj.FractionObject? ==> r == Returns(-1)
  {
    if obj.FractionObject? then CompareToAsWritten(self, Obj(obj.fraction)) else Returns(-1)
  }

  // ---------------------------------------------------------------------------
  // As intended: the guard tests the reference

  /** `Equals(Fraction other)` with a reference test for null, as its doc
      comment describes: false for null, otherwise componentwise equality,
      which is equality of the rational values. */
  function EqualsIntended(self: Fraction, other: Ref): (r: Outcome<bool>)
    ensures r.Returns?
    ensures other.Null? ==> r == Returns(false)
    ensures other.Obj? ==> (r.value <==> Value(self) == Value(other.f))
  {
    AndAlso(Returns(other.Obj?), SameFields(self, other))
  }

  /** `CompareTo(Fraction other)` with a reference test for null, as its doc
      comment describes: 1 for null, otherwise -1, 0 or 1 by the order of the
      rational values. */
  function CompareToIntended(self: Fraction, other: Ref): (r: Outcome<int>)
    ensures r.Returns?
    ensures other.Null? ==> r == Returns(1)
    ensures other.Obj? ==> (r.value == -1 <==> Value(self) < Value(other.f))
    ensures other.Obj? ==> (r.value == 0 <==> Value(self) == Value(other.f))
    ensures other.Obj? ==> (r.value == 1 <==> Value(self) > Value(other.f))
  {
    Conditional(Returns(other.Obj?), CompareFields(self, other), Returns(1))
  }

  /** The discrepancy: for every receiver and argument, null or not, the
      members as written throw, while the intended ones return the documented
      answer. */
  lemma GuardAlwaysThrows(self: Fraction, other: Ref)
    ensures EqualsAsWritten(self, other) == ThrowsNullReference
    ensures CompareToAsWritten(self, other) == ThrowsNullReference
    ensures EqualsIntended(self, other).Returns? && CompareToIntended(self, other).Returns?
    ensures CompareToIntended(self, Obj(self)) == Returns(0)
    ensures CompareToIntended(self, Null) == Returns(1)
  {
  }
}
