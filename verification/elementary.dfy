/** The elementary functions the conversions call (`std::sin`, `std::acos`, `std::sqrt`, ...)
    and the constants they compare against.

    Dafny has no transcendental functions, so they are passed explicitly as a record of
    real functions. Nothing is known about them except the laws collected in `Lawful`,
    each of which holds of the true real functions; every conversion assumes `Lawful`.

    Proofs follow one pattern: a law is stated through a named predicate (`UnitCircle`,
    `UnitHyperbola`, `IsSquareRoot`, ...) about the function values, and the algebra is
    done by lemmas over plain real parameters that take those predicates as
    preconditions. The solver then connects a caller's function values to a lemma's
    parameters by matching whole predicates, not by arithmetic on products.
 */
module Elementary {

  /** A bundle of real functions standing for the C++ <cmath> ones, together with the
      value of pi they are consistent with. */
  datatype Functions = Functions(
    pi: real,
    sin: real -> real,
    cos: real -> real,
    sinh: real -> real,
    cosh: real -> real,
    acos: real -> real,
    atan2: (real, real) -> real,
    atanh: real -> real,
    sqrt: real -> real,
    cbrt: real -> real)

  /** (x, y) lies on the unit circle; written (y, x) like the arguments of atan2. */
  predicate UnitCircle(y: real, x: real) {
    x * x + y * y == 1.0
  }

  /** (cosh, sinh) lies on the right branch of the unit hyperbola. */
  predicate UnitHyperbola(ch: real, sh: real) {
    1.0 <= ch && ch * ch - sh * sh == 1.0
  }

  predicate IsSquareRoot(r: real, x: real) {
    0.0 <= r && r * r == x
  }

  predicate IsCubeRoot(r: real, x: real) {
    r * r * r == x
  }

  /** The laws the conversions rely on. Each quantified law is instantiated only at the
      points a proof names through the matching `...At` predicate (see the lemmas below),
      so that a proof does not pay for laws it does not use. */
  ghost predicate Lawful(f: Functions) {
    && 3.14159 < f.pi < 3.14160
    && (forall x {:trigger SinCosAt(x)} :: UnitCircle(f.sin(x), f.cos(x)))
    && (forall x {:trigger CoshAt(x)} :: UnitHyperbola(f.cosh(x), f.sinh(x)))
    && (forall x {:trigger AcosAt(x)} ::
          -1.0 <= x <= 1.0 ==>
            && 0.0 <= f.acos(x) <= f.pi
            && f.cos(f.acos(x)) == x
            && 0.0 <= f.sin(f.acos(x)))
    && f.acos(1.0) == 0.0
    && f.acos(-1.0) == f.pi
    && (forall x {:trigger AcosOfCosAt(x)} :: 0.0 <= x <= f.pi ==> f.acos(f.cos(x)) == x)
    && (forall x {:trigger ReflectAt(x)} ::
          f.cos(2.0 * f.pi - x) == f.cos(x) && f.sin(2.0 * f.pi - x) == -f.sin(x))
    && (forall x {:trigger HalfAngleAt(x)} :: f.cos(x) == 1.0 - 2.0 * Square(f.sin(0.5 * x)))
    && (forall y, x {:trigger Atan2At(y, x)} ::
          && -f.pi <= f.atan2(y, x) <= f.pi
          && (UnitCircle(y, x) ==> f.cos(f.atan2(y, x)) == x && f.sin(f.atan2(y, x)) == y))
    && (forall t {:trigger AtanhAt(t)} ::
          -1.0 < t < 1.0 ==> f.sinh(f.atanh(t)) == t * f.cosh(f.atanh(t)))
    && (forall x {:trigger SqrtAt(x)} :: 0.0 <= x ==> IsSquareRoot(f.sqrt(x), x))
    && (forall x {:trigger CbrtAt(x)} :: IsCubeRoot(f.cbrt(x), x))
  }

  // The points at which a law of `Lawful` is wanted.
  ghost predicate SinCosAt(x: real) { true }
  ghost predicate CoshAt(x: real) { true }
  ghost predicate AcosAt(x: real) { true }
  ghost predicate AcosOfCosAt(x: real) { true }
  ghost predicate ReflectAt(x: real) { true }
  ghost predicate HalfAngleAt(x: real) { true }
  ghost predicate Atan2At(y: real, x: real) { true }
  ghost predicate AtanhAt(t: real) { true }
  ghost predicate SqrtAt(x: real) { true }
  ghost predicate CbrtAt(x: real) { true }

  /** `std::numeric_limits<double>::epsilon()`, that is 2^-52. */
  const MachineEpsilon: real := 1.0 / 4503599627370496.0

  function Abs(x: real): real {
    if x < 0.0 then -x else x
  }

  function Square(x: real): real {
    x * x
  }

  // The laws of `Lawful`, one lemma per function.

  lemma SinCosLaw(f: Functions, x: real)
    requires Lawful(f)
    ensures UnitCircle(f.sin(x), f.cos(x))
  {
    assert SinCosAt(x);
  }

  lemma CoshLaw(f: Functions, x: real)
    requires Lawful(f)
    ensures UnitHyperbola(f.cosh(x), f.sinh(x))
  {
    assert CoshAt(x);
  }

  lemma AcosLaw(f: Functions, x: real)
    requires Lawful(f)
    requires -1.0 <= x <= 1.0
    ensures 0.0 <= f.acos(x) <= f.pi
    ensures f.cos(f.acos(x)) == x
    ensures 0.0 <= f.sin(f.acos(x))
  {
    assert AcosAt(x);
  }

  lemma AcosOfCosLaw(f: Functions, x: real)
    requires Lawful(f)
    requires 0.0 <= x <= f.pi
    ensures f.acos(f.cos(x)) == x
  {
    assert AcosOfCosAt(x);
  }

  /** 2 pi - x has the cosine of x and the opposite sine. */
  lemma ReflectLaw(f: Functions, x: real)
    requires Lawful(f)
    ensures f.cos(2.0 * f.pi - x) == f.cos(x)
    ensures f.sin(2.0 * f.pi - x) == -f.sin(x)
  {
    assert ReflectAt(x);
  }

  /** cos x == 1 - 2 sin^2(x / 2). */
  lemma HalfAngleLaw(f: Functions, x: real)
    requires Lawful(f)
    ensures f.cos(x) == 1.0 - 2.0 * Square(f.sin(0.5 * x))
  {
    assert HalfAngleAt(x);
  }

  lemma Atan2Law(f: Functions, y: real, x: real)
    requires Lawful(f)
    ensures -f.pi <= f.atan2(y, x) <= f.pi
    ensures UnitCircle(y, x) ==> f.cos(f.atan2(y, x)) == x && f.sin(f.atan2(y, x)) == y
  {
    assert Atan2At(y, x);
  }

  lemma AtanhLaw(f: Functions, t: real)
    requires Lawful(f)
    ensures -1.0 < t < 1.0 ==> f.sinh(f.atanh(t)) == t * f.cosh(f.atanh(t))
  {
    assert AtanhAt(t);
  }

  lemma SqrtLaw(f: Functions, x: real)
    requires Lawful(f)
    requires 0.0 <= x
    ensures IsSquareRoot(f.sqrt(x), x)
  {
    assert SqrtAt(x);
  }

  lemma CbrtLaw(f: Functions, x: real)
    requires Lawful(f)
    ensures IsCubeRoot(f.cbrt(x), x)
  {
    assert CbrtAt(x);
  }

  // Consequences of the predicates.

  /** Both coordinates of a point on the unit circle lie in [-1, 1]. */
  lemma UnitCircleBounds(y: real, x: real)
    requires UnitCircle(y, x)
    ensures -1.0 <= x <= 1.0 && -1.0 <= y <= 1.0
  {
    assert x < -1.0 || 1.0 < x ==> 1.0 < x * x;
    assert y < -1.0 || 1.0 < y ==> 1.0 < y * y;
  }

  /** The square root of a square of a non-negative number is that number. */
  lemma SquareRootOfSquare(r: real, y: real)
    requires 0.0 <= y
    requires IsSquareRoot(r, y * y)
    ensures r == y
  {
    EqualSquares(r, y);
  }

  /** A square root is zero exactly at zero and positive above it. */
  lemma SquareRootSign(r: real, x: real)
    requires IsSquareRoot(r, x)
    ensures r == 0.0 <==> x == 0.0
    ensures 0.0 < x <==> 0.0 < r
  {
    if x == 0.0 {
      ZeroProduct(r, r);
    }
    if 0.0 < r {
      PositiveProduct(r, r, r * r);
    }
  }

  /** Cube roots are unique. */
  lemma CubeRootUnique(r: real, r': real, x: real)
    requires IsCubeRoot(r, x) && IsCubeRoot(r', x)
    ensures r == r'
  {
    // r^3 - r'^3 == (r - r') (r^2 + r r' + r'^2), and the second factor vanishes only
    // when r == r' == 0.
    assert (r - r') * (r * r + r * r' + r' * r') == 0.0;
    ZeroProduct(r - r', r * r + r * r' + r' * r');
    if r * r + r * r' + r' * r' == 0.0 {
      assert 2.0 * (r * r + r * r' + r' * r') == Square(r + r') + Square(r) + Square(r');
      NonNegativeSquare(r + r');
      NonNegativeSquare(r);
      NonNegativeSquare(r');
      ZeroProduct(r, r);
      ZeroProduct(r', r');
    }
  }

  // Algebra the proofs share.

  /** Two non-negative numbers with equal squares are equal. */
  lemma EqualSquares(x: real, y: real)
    requires 0.0 <= x && 0.0 <= y
    requires x * x == y * y
    ensures x == y
  {
    assert (x - y) * (x + y) == 0.0;
    ZeroProduct(x - y, x + y);
  }

  lemma ZeroProduct(a: real, b: real)
    requires a * b == 0.0
    ensures a == 0.0 || b == 0.0
  {
  }

  /** A non-zero common factor cancels. */
  lemma CancelFactor(x: real, y: real, k: real)
    requires k != 0.0
    requires x * k == y * k
    ensures x == y
  {
    ZeroProduct(x - y, k);
  }

  /** A factor that is a non-zero square can be cancelled. */
  lemma CancelSquareFactor(a: real, d: real)
    requires d != 0.0
    requires a * (d * d) == 0.0
    ensures a == 0.0
  {
    assert (a * d) * d == 0.0;
    ZeroProduct(a * d, d);
    ZeroProduct(a, d);
  }

  /** The square of a non-zero number is positive.

      Inequalities about products are stated on `Square(x)` or on a parameter equal to
      the product, never on `x * x` itself, which the solver handles poorly as a
      hypothesis. */
  lemma PositiveSquare(d: real)
    requires d != 0.0
    ensures 0.0 < Square(d)
  {
    if d < 0.0 {
      PositiveProduct(-d, -d, Square(d));
    } else {
      PositiveProduct(d, d, Square(d));
    }
  }

  lemma NonNegativeSquare(d: real)
    ensures 0.0 <= Square(d)
    ensures 0.0 < Square(d) <==> d != 0.0
  {
    if d != 0.0 {
      PositiveSquare(d);
    }
  }

  lemma PositiveProduct(a: real, b: real, p: real)
    requires 0.0 < a && 0.0 < b
    requires p == a * b
    ensures 0.0 < p
  {
  }

  /** The cube of a non-zero number has its sign. */
  lemma CubeSign(a: real)
    ensures 0.0 < a ==> 0.0 < a * a * a
    ensures a < 0.0 ==> 0.0 < -a * a * a
  {
    if 0.0 < a {
      PositiveProduct(a, a, a * a);
      PositiveProduct(a * a, a, a * a * a);
    } else if a < 0.0 {
      PositiveProduct(-a, -a, a * a);
      PositiveProduct(a * a, -a, -a * a * a);
    }
  }

  /** A factor of a positive product whose other factor is positive is positive. */
  lemma PositiveFactor(a: real, b: real, p: real)
    requires p == a * b
    requires 0.0 < p && 0.0 < b
    ensures 0.0 < a
  {
    assert a <= 0.0 ==> a * b <= 0.0;
  }

  /** Eccentricities in [0, 1) have 1 - e^2 in (0, 1]; above one, e^2 - 1 > 0. */
  lemma EccentricitySquare(e: real)
    ensures 0.0 <= e < 1.0 ==> 0.0 < 1.0 - Square(e) <= 1.0
    ensures 1.0 < e ==> 0.0 < Square(e) - 1.0
  {
    if 0.0 <= e < 1.0 {
      assert e * e <= e * 1.0;
    }
    if 1.0 < e {
      assert 1.0 * e < e * e;
    }
  }

  /** A number whose square is below one lies strictly between -1 and 1. */
  lemma SquareBelowOne(t: real)
    requires Square(t) < 1.0
    ensures -1.0 < t < 1.0
  {
    assert t <= -1.0 ==> 1.0 <= t * t;
    assert 1.0 <= t ==> 1.0 <= t * t;
  }

  /** If (x d, y d) lies on the circle of radius |d| and d is not zero, (x, y) lies on the
      unit circle. */
  lemma ScaledUnitCircle(x: real, y: real, a: real, b: real, d: real)
    requires d != 0.0
    requires x * d == a && y * d == b
    requires a * a + b * b == d * d
    ensures UnitCircle(y, x)
  {
    assert (x * x + y * y - 1.0) * (d * d) == (x * d) * (x * d) + (y * d) * (y * d) - d * d;
    CancelSquareFactor(x * x + y * y - 1.0, d);
  }
}
