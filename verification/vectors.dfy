/** Three-vectors over the reals: the parts of Eigen's `Matrix<double, 3, 1>` the
    conversions use. */
module Vectors {
  import opened Elementary

  datatype Vec3 = Vec3(x: real, y: real, z: real)

  const Zero: Vec3 := Vec3(0.0, 0.0, 0.0)
  const UnitX: Vec3 := Vec3(1.0, 0.0, 0.0)
  const UnitZ: Vec3 := Vec3(0.0, 0.0, 1.0)

  function Add(a: Vec3, b: Vec3): Vec3 {
    Vec3(a.x + b.x, a.y + b.y, a.z + b.z)
  }

  function Sub(a: Vec3, b: Vec3): Vec3 {
    Vec3(a.x - b.x, a.y - b.y, a.z - b.z)
  }

  function Scale(k: real, a: Vec3): Vec3 {
    Vec3(k * a.x, k * a.y, k * a.z)
  }

  function Dot(a: Vec3, b: Vec3): real {
    a.x * b.x + a.y * b.y + a.z * b.z
  }

  function Cross(a: Vec3, b: Vec3): Vec3 {
    Vec3(a.y * b.z - a.z * b.y, a.z * b.x - a.x * b.z, a.x * b.y - a.y * b.x)
  }

  function SquaredNorm(a: Vec3): real {
    Dot(a, a)
  }

  /** The Euclidean norm. */
  function Norm(f: Functions, a: Vec3): (n: real)
    requires Lawful(f)
    ensures IsSquareRoot(n, SquaredNorm(a))
    ensures n == 0.0 <==> a == Zero
  {
    SquaredNormSign(a);
    SqrtLaw(f, SquaredNorm(a));
    SquareRootSign(f.sqrt(SquaredNorm(a)), SquaredNorm(a));
    f.sqrt(SquaredNorm(a))
  }

  /** Eigen's `normalized()`: the vector divided by its norm, and the zero vector unchanged. */
  function Normalized(f: Functions, a: Vec3): (u: Vec3)
    requires Lawful(f)
    ensures a == Zero ==> u == Zero
    ensures a != Zero ==> SquaredNorm(u) == 1.0 && Scale(Norm(f, a), u) == a
  {
    var n := Norm(f, a);
    if n == 0.0 then
      a
    else
      UnitQuotient(a, n);
      Vec3(a.x / n, a.y / n, a.z / n)
  }

  /** A vector divided by its (non-zero) norm has norm one and scales back to the vector. */
  lemma UnitQuotient(a: Vec3, n: real)
    requires n != 0.0
    requires n * n == SquaredNorm(a)
    ensures SquaredNorm(Vec3(a.x / n, a.y / n, a.z / n)) == 1.0
    ensures Scale(n, Vec3(a.x / n, a.y / n, a.z / n)) == a
  {
    var u := Vec3(a.x / n, a.y / n, a.z / n);
    assert u.x * n == a.x && u.y * n == a.y && u.z * n == a.z;
    assert (SquaredNorm(u) - 1.0) * (n * n) == SquaredNorm(Scale(n, u)) - n * n;
    CancelSquareFactor(SquaredNorm(u) - 1.0, n);
  }

  /** The squared norm is non-negative and zero only for the zero vector. */
  lemma SquaredNormSign(a: Vec3)
    ensures 0.0 <= SquaredNorm(a)
    ensures SquaredNorm(a) == 0.0 <==> a == Zero
  {
    NonNegativeSquare(a.x);
    NonNegativeSquare(a.y);
    NonNegativeSquare(a.z);
  }

  /** The cross product is orthogonal to both factors. */
  lemma CrossOrthogonal(a: Vec3, b: Vec3)
    ensures Dot(Cross(a, b), a) == 0.0 && Dot(Cross(a, b), b) == 0.0
  {
  }

  /** Lagrange's identity: |a x b|^2 + (a . b)^2 == |a|^2 |b|^2. */
  lemma Lagrange(a: Vec3, b: Vec3)
    ensures SquaredNorm(Cross(a, b)) + Square(Dot(a, b)) == SquaredNorm(a) * SquaredNorm(b)
  {
  }

  /** Cauchy-Schwarz: the dot product of two vectors of norm at most one lies in [-1, 1]. */
  lemma DotBounds(a: Vec3, b: Vec3)
    requires SquaredNorm(a) <= 1.0 && SquaredNorm(b) <= 1.0
    ensures -1.0 <= Dot(a, b) <= 1.0
  {
    Lagrange(a, b);
    SquaredNormSign(a);
    SquaredNormSign(b);
    SquaredNormSign(Cross(a, b));
    assert SquaredNorm(a) * SquaredNorm(b) <= 1.0 by {
      ProductAtMostOne(SquaredNorm(a), SquaredNorm(b));
    }
    SquareAtMostOne(Dot(a, b));
  }

  lemma ProductAtMostOne(x: real, y: real)
    requires 0.0 <= x <= 1.0 && 0.0 <= y <= 1.0
    ensures x * y <= 1.0
  {
    if x == 0.0 {
      assert x * y == 0.0;
    } else if y == 1.0 {
      assert x * y == x;
    } else {
      PositiveProduct(x, 1.0 - y, x * (1.0 - y));
      assert x * (1.0 - y) == x - x * y;
    }
  }

  lemma SquareAtMostOne(t: real)
    requires Square(t) <= 1.0
    ensures -1.0 <= t <= 1.0
  {
    assert t < -1.0 ==> 1.0 < t * t;
    assert 1.0 < t ==> 1.0 < t * t;
  }

  /** The normalized vector has norm at most one. */
  lemma NormalizedBound(f: Functions, a: Vec3)
    requires Lawful(f)
    ensures SquaredNorm(Normalized(f, a)) <= 1.0
  {
  }

  /** Each coordinate of a vector of norm at most one lies in [-1, 1]. */
  lemma CoordinateBounds(a: Vec3)
    requires SquaredNorm(a) <= 1.0
    ensures -1.0 <= a.x <= 1.0 && -1.0 <= a.y <= 1.0 && -1.0 <= a.z <= 1.0
  {
    NonNegativeSquare(a.x);
    NonNegativeSquare(a.y);
    NonNegativeSquare(a.z);
    assert Square(a.x) + Square(a.y) + Square(a.z) == SquaredNorm(a);
    SquareAtMostOne(a.x);
    SquareAtMostOne(a.y);
    SquareAtMostOne(a.z);
  }
}
