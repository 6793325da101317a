/** Keplerian elements against Cartesian states (the Cartesian part of
    orbitalElementConversions.h).

    Keplerian -> Cartesian places the orbit in its perifocal frame and rotates it by the
    three orientation angles. Cartesian -> Keplerian recovers the elements from the angular
    momentum and eccentricity vectors, with special cases for parabolic, circular and
    equatorial orbits decided by a hard-coded tolerance.
 */
module Cartesian {
  import opened Elementary
  import opened Vectors
  import opened Elements
  import opened Angles

  /** Keplerian -> Cartesian treats an orbit as parabolic when |e - 1| <= machine epsilon. */
  const ParabolicTolerance: real := MachineEpsilon

  /** Cartesian -> Keplerian uses 20 machine epsilons for all its special cases. */
  const Tolerance: real := 20.0 * MachineEpsilon

  // Keplerian -> Cartesian.

  /** p == a (1 - e^2): the semi-latus rectum of a conic with semi-major axis a and
      eccentricity e. */
  predicate AxisAndRectum(a: real, e: real, p: real) {
    a * (1.0 - e * e) == p
  }

  /** The semi-latus rectum p: the first element itself for a parabolic orbit, a (1 - e^2)
      otherwise. */
  function SemiLatusRectum(k: Keplerian): (p: real)
    ensures Abs(k.eccentricity - 1.0) <= ParabolicTolerance ==> p == k.semiMajorAxis
    ensures ParabolicTolerance < Abs(k.eccentricity - 1.0) ==> AxisAndRectum(k.semiMajorAxis, k.eccentricity, p)
  {
    if Abs(k.eccentricity - 1.0) > ParabolicTolerance then
      k.semiMajorAxis * (1.0 - k.eccentricity * k.eccentricity)
    else
      k.semiMajorAxis
  }

  /** The first column of the perifocal-to-inertial rotation: the direction of periapsis. */
  function FrameP(cO: real, sO: real, cw: real, sw: real, ci: real, si: real): Vec3 {
    Vec3(cO * cw - sO * sw * ci, sO * cw + cO * sw * ci, sw * si)
  }

  /** The second column: the in-plane direction a quarter turn ahead of periapsis. */
  function FrameQ(cO: real, sO: real, cw: real, sw: real, ci: real, si: real): Vec3 {
    Vec3(-cO * sw - sO * cw * ci, -sO * sw + cO * cw * ci, cw * si)
  }

  /** Two unit vectors at right angles. */
  predicate Orthonormal(p: Vec3, q: Vec3) {
    SquaredNorm(p) == 1.0 && SquaredNorm(q) == 1.0 && Dot(p, q) == 0.0
  }

  /** The columns of the rotation built from the three orientation angles. */
  function OrbitalFrame(f: Functions, k: Keplerian): (pq: (Vec3, Vec3))
    requires Lawful(f)
    ensures Orthonormal(pq.0, pq.1)
  {
    var node, periapsis, inclination := k.longitudeOfAscendingNode, k.argumentOfPeriapsis, k.inclination;
    SinCosLaw(f, node);
    SinCosLaw(f, periapsis);
    SinCosLaw(f, inclination);
    FrameOrthonormal(f.cos(node), f.sin(node), f.cos(periapsis), f.sin(periapsis),
                     f.cos(inclination), f.sin(inclination));
    (FrameP(f.cos(node), f.sin(node), f.cos(periapsis), f.sin(periapsis), f.cos(inclination), f.sin(inclination)),
     FrameQ(f.cos(node), f.sin(node), f.cos(periapsis), f.sin(periapsis), f.cos(inclination), f.sin(inclination)))
  }

  lemma FrameOrthonormal(cO: real, sO: real, cw: real, sw: real, ci: real, si: real)
    requires UnitCircle(sO, cO) && UnitCircle(sw, cw) && UnitCircle(si, ci)
    ensures SquaredNorm(FrameP(cO, sO, cw, sw, ci, si)) == 1.0
    ensures SquaredNorm(FrameQ(cO, sO, cw, sw, ci, si)) == 1.0
    ensures Dot(FrameP(cO, sO, cw, sw, ci, si), FrameQ(cO, sO, cw, sw, ci, si)) == 0.0
  {
    FrameUnitP(cO, sO, cw, sw, ci, si);
    FrameUnitQ(cO, sO, cw, sw, ci, si);
    FrameRightAngle(cO, sO, cw, sw, ci, si);
  }

  lemma FrameUnitP(cO: real, sO: real, cw: real, sw: real, ci: real, si: real)
    requires UnitCircle(sO, cO) && UnitCircle(sw, cw) && UnitCircle(si, ci)
    ensures SquaredNorm(FrameP(cO, sO, cw, sw, ci, si)) == 1.0
  {
    FrameExpansionP(cO, sO, cw, sw, ci, si);
    UnitCombination(cw * cw, sw * sw, ci * ci, si * si, cO * cO + sO * sO);
  }

  lemma FrameUnitQ(cO: real, sO: real, cw: real, sw: real, ci: real, si: real)
    requires UnitCircle(sO, cO) && UnitCircle(sw, cw) && UnitCircle(si, ci)
    ensures SquaredNorm(FrameQ(cO, sO, cw, sw, ci, si)) == 1.0
  {
    FrameExpansionQ(cO, sO, cw, sw, ci, si);
    UnitCombination(sw * sw, cw * cw, ci * ci, si * si, cO * cO + sO * sO);
  }

  lemma FrameRightAngle(cO: real, sO: real, cw: real, sw: real, ci: real, si: real)
    requires UnitCircle(sO, cO) && UnitCircle(sw, cw) && UnitCircle(si, ci)
    ensures Dot(FrameP(cO, sO, cw, sw, ci, si), FrameQ(cO, sO, cw, sw, ci, si)) == 0.0
  {
    FrameExpansionDot(cO, sO, cw, sw, ci, si);
    ZeroCombination(cw * sw, ci * ci, si * si, cO * cO + sO * sO);
  }

  lemma UnitCombination(a: real, b: real, c: real, s: real, o: real)
    requires o == 1.0 && a + b == 1.0 && c + s == 1.0
    ensures a * o + b * (c * o) + b * s == 1.0
  {
    UnitTimes(a, o);
    UnitTimes(c, o);
    assert b * c + b * s == b * (c + s);
  }

  lemma ZeroCombination(m: real, c: real, s: real, o: real)
    requires o == 1.0 && c + s == 1.0
    ensures -m * o + m * (c * o) + m * s == 0.0
  {
    UnitTimes(m, o);
    UnitTimes(c, o);
    assert m * c + m * s == m * (c + s);
  }

  /** The squared norms and the dot product of the columns, as polynomials in the sines and
      cosines with the node's cos^2 + sin^2 factored out. */
  lemma FrameExpansionP(cO: real, sO: real, cw: real, sw: real, ci: real, si: real)
    ensures SquaredNorm(FrameP(cO, sO, cw, sw, ci, si))
            == (cw * cw) * (cO * cO + sO * sO) + (sw * sw) * ((ci * ci) * (cO * cO + sO * sO)) + (sw * sw) * (si * si)
  {
  }

  lemma FrameExpansionQ(cO: real, sO: real, cw: real, sw: real, ci: real, si: real)
    ensures SquaredNorm(FrameQ(cO, sO, cw, sw, ci, si))
            == (sw * sw) * (cO * cO + sO * sO) + (cw * cw) * ((ci * ci) * (cO * cO + sO * sO)) + (cw * cw) * (si * si)
  {
  }

  lemma FrameExpansionDot(cO: real, sO: real, cw: real, sw: real, ci: real, si: real)
    ensures Dot(FrameP(cO, sO, cw, sw, ci, si), FrameQ(cO, sO, cw, sw, ci, si))
            == -(cw * sw) * (cO * cO + sO * sO) + (cw * sw) * ((ci * ci) * (cO * cO + sO * sO)) + (cw * sw) * (si * si)
  {
  }

  lemma UnitTimes(k: real, a: real)
    requires a == 1.0
    ensures k * a == k
  {
  }

  /** x p + y q. */
  function InPlane(p: Vec3, q: Vec3, x: real, y: real): Vec3 {
    Add(Scale(x, p), Scale(y, q))
  }

  /** In an orthonormal frame, the point (x, y) has squared norm x^2 + y^2, and the cross
      product of (x, y) and (u, w) has squared norm (x w - y u)^2. */
  lemma InPlaneNorms(p: Vec3, q: Vec3, x: real, y: real, u: real, w: real)
    requires Orthonormal(p, q)
    ensures SquaredNorm(InPlane(p, q, x, y)) == x * x + y * y
    ensures SquaredNorm(Cross(InPlane(p, q, x, y), InPlane(p, q, u, w))) == Square(x * w - y * u)
  {
    InPlaneExpansions(p, q, x, y, u, w);
    Lagrange(p, q);
    UnitTimes(x * x, SquaredNorm(p));
    UnitTimes(y * y, SquaredNorm(q));
    UnitTimes(Square(x * w - y * u), SquaredNorm(Cross(p, q)));
  }

  lemma InPlaneExpansions(p: Vec3, q: Vec3, x: real, y: real, u: real, w: real)
    ensures SquaredNorm(InPlane(p, q, x, y))
            == x * x * SquaredNorm(p) + 2.0 * x * y * Dot(p, q) + y * y * SquaredNorm(q)
    ensures SquaredNorm(Cross(InPlane(p, q, x, y), InPlane(p, q, u, w)))
            == Square(x * w - y * u) * SquaredNorm(Cross(p, q))
  {
    InPlaneSquaredNorm(p, q, x, y);
    InPlaneCrossX(p, q, x, y, u, w);
    InPlaneCrossY(p, q, x, y, u, w);
    InPlaneCrossZ(p, q, x, y, u, w);
    ScaledCoordinates(Cross(InPlane(p, q, x, y), InPlane(p, q, u, w)), x * w - y * u, Cross(p, q));
  }

  lemma InPlaneSquaredNorm(p: Vec3, q: Vec3, x: real, y: real)
    ensures SquaredNorm(InPlane(p, q, x, y))
            == x * x * SquaredNorm(p) + 2.0 * x * y * Dot(p, q) + y * y * SquaredNorm(q)
  {
    SquareOfSum(x, y, p.x, q.x);
    SquareOfSum(x, y, p.y, q.y);
    SquareOfSum(x, y, p.z, q.z);
  }

  lemma SquareOfSum(x: real, y: real, a: real, b: real)
    ensures (x * a + y * b) * (x * a + y * b) == x * x * (a * a) + 2.0 * x * y * (a * b) + y * y * (b * b)
  {
  }

  lemma InPlaneCrossX(p: Vec3, q: Vec3, x: real, y: real, u: real, w: real)
    ensures Cross(InPlane(p, q, x, y), InPlane(p, q, u, w)).x == (x * w - y * u) * Cross(p, q).x
  {
    var a, b := InPlane(p, q, x, y), InPlane(p, q, u, w);
    InPlaneCoordinates(p, q, x, y);
    InPlaneCoordinates(p, q, u, w);
    BilinearCoordinate(Cross(a, b).x, a.y, a.z, b.y, b.z, p.y, q.y, p.z, q.z, Cross(p, q).x, x, y, u, w);
  }

  lemma InPlaneCrossY(p: Vec3, q: Vec3, x: real, y: real, u: real, w: real)
    ensures Cross(InPlane(p, q, x, y), InPlane(p, q, u, w)).y == (x * w - y * u) * Cross(p, q).y
  {
    var a, b := InPlane(p, q, x, y), InPlane(p, q, u, w);
    InPlaneCoordinates(p, q, x, y);
    InPlaneCoordinates(p, q, u, w);
    BilinearCoordinate(Cross(a, b).y, a.z, a.x, b.z, b.x, p.z, q.z, p.x, q.x, Cross(p, q).y, x, y, u, w);
  }

  lemma InPlaneCrossZ(p: Vec3, q: Vec3, x: real, y: real, u: real, w: real)
    ensures Cross(InPlane(p, q, x, y), InPlane(p, q, u, w)).z == (x * w - y * u) * Cross(p, q).z
  {
    var a, b := InPlane(p, q, x, y), InPlane(p, q, u, w);
    InPlaneCoordinates(p, q, x, y);
    InPlaneCoordinates(p, q, u, w);
    BilinearCoordinate(Cross(a, b).z, a.x, a.y, b.x, b.y, p.x, q.x, p.y, q.y, Cross(p, q).z, x, y, u, w);
  }

  lemma InPlaneCoordinates(p: Vec3, q: Vec3, x: real, y: real)
    ensures InPlane(p, q, x, y).x == x * p.x + y * q.x
    ensures InPlane(p, q, x, y).y == x * p.y + y * q.y
    ensures InPlane(p, q, x, y).z == x * p.z + y * q.z
  {
  }

  /** One coordinate of the cross product of x p + y q and u p + w q. */
  lemma BilinearCoordinate(r: real, a1: real, a2: real, b1: real, b2: real, p1: real, q1: real, p2: real, q2: real,
                           cross: real, x: real, y: real, u: real, w: real)
    requires r == a1 * b2 - a2 * b1
    requires a1 == x * p1 + y * q1 && a2 == x * p2 + y * q2
    requires b1 == u * p1 + w * q1 && b2 == u * p2 + w * q2
    requires cross == p1 * q2 - p2 * q1
    ensures r == (x * w - y * u) * cross
  {
    assert a1 * b2 - a2 * b1 == (x * w - y * u) * (p1 * q2 - p2 * q1);
  }

  /** A vector whose coordinates are k times those of c has squared norm k^2 |c|^2. */
  lemma ScaledCoordinates(v: Vec3, k: real, c: Vec3)
    requires v.x == k * c.x && v.y == k * c.y && v.z == k * c.z
    ensures SquaredNorm(v) == Square(k) * SquaredNorm(c)
  {
  }

  /** 1 + e cos nu is not zero: the conic reaches true anomaly nu at a finite radius. */
  predicate FiniteRadius(e: real, c: real) {
    1.0 + e * c != 0.0
  }

  /** 1 + e cos nu is positive: for p > 0 the conic reaches true anomaly nu at a positive
      radius (always for e < 1; on the hyperbola's own branch for e > 1). */
  predicate PositiveRadius(e: real, c: real) {
    0.0 < 1.0 + e * c
  }

  /** The conic's radius p / (1 + e cos nu). */
  function Radius(p: real, e: real, c: real): real
    requires FiniteRadius(e, c)
  {
    p / (1.0 + e * c)
  }

  /** The perifocal position: the point at distance p / (1 + e cos nu) in direction nu. */
  function PerifocalPosition(p: real, e: real, c: real, s: real): (xy: (real, real))
    requires UnitCircle(s, c)
    requires FiniteRadius(e, c)
    ensures xy.0 * (1.0 + e * c) == p * c && xy.1 * (1.0 + e * c) == p * s
    ensures xy.0 * xy.0 + xy.1 * xy.1 == Square(Radius(p, e, c))
  {
    var d := 1.0 + e * c;
    var r := Radius(p, e, c);
    assert p * c / d == r * c && p * s / d == r * s;
    assert (r * c) * (r * c) + (r * s) * (r * s) == (r * r) * (c * c + s * s);
    (p * c / d, p * s / d)
  }

  /** The perifocal velocity sqrt(mu / p) (-sin nu, e + cos nu), with n standing for sqrt(mu / p). */
  function PerifocalVelocity(n: real, e: real, c: real, s: real): (uw: (real, real)) {
    (-n * s, n * (e + c))
  }

  /** The state at perifocal position and velocity, in the frame with columns p and q. */
  function PerifocalState(p: Vec3, q: Vec3, sl: real, e: real, c: real, s: real, n: real): CartesianState
    requires UnitCircle(s, c)
    requires FiniteRadius(e, c)
  {
    var xy, uw := PerifocalPosition(sl, e, c, s), PerifocalVelocity(n, e, c, s);
    CartesianState(InPlane(p, q, xy.0, xy.1), InPlane(p, q, uw.0, uw.1))
  }

  /** The perifocal velocity has specific angular momentum
      x w - y u == sqrt(mu / p) p, whose square is mu p. */
  lemma PerifocalMomentum(x: real, y: real, u: real, w: real, n: real, p: real, e: real, c: real, s: real, mu: real)
    requires UnitCircle(s, c)
    requires FiniteRadius(e, c)
    requires x * (1.0 + e * c) == p * c && y * (1.0 + e * c) == p * s
    requires u == -n * s && w == n * (e + c)
    requires 0.0 < p && 0.0 <= mu ==> IsSquareRoot(n, mu / p)
    ensures x * w - y * u == n * p
    ensures 0.0 < p && 0.0 <= mu ==> Square(n * p) == mu * p
  {
    var d := 1.0 + e * c;
    var momentum := x * w - y * u;
    MomentumExpansion(x, y, u, w, n, e, c, s, d);
    assert momentum * d == n * ((p * c) * (e + c) + (p * s) * s);
    MomentumFactor(n, p, e, c, s);
    assert e * c + (c * c + s * s) == d;
    CancelFactor(momentum, n * p, d);
    if 0.0 < p && 0.0 <= mu {
      SquaredMomentum(n, p, mu);
    }
  }

  /** Keplerian -> Cartesian. The position lies at the conic's radius p / (1 + e cos nu), and
      for p > 0 the squared angular momentum is mu p. */
  function KeplerianToCartesian(f: Functions, k: Keplerian, mu: real): (s: CartesianState)
    requires Lawful(f)
    requires SemiLatusRectum(k) != 0.0
    requires FiniteRadius(k.eccentricity, f.cos(k.trueAnomaly))
    ensures 0.0 < SemiLatusRectum(k) && 0.0 <= mu ==>
              SquaredNorm(Cross(s.position, s.velocity)) == mu * SemiLatusRectum(k)
    ensures SquaredNorm(s.position) == Square(Radius(SemiLatusRectum(k), k.eccentricity, f.cos(k.trueAnomaly)))
  {
    var p, e := SemiLatusRectum(k), k.eccentricity;
    var c, sn := f.cos(k.trueAnomaly), f.sin(k.trueAnomaly);
    SinCosLaw(f, k.trueAnomaly);
    var frame := OrbitalFrame(f, k);
    var n := f.sqrt(mu / p);
    MeanMotionLike(f, mu, p);
    ConicState(frame.0, frame.1, p, e, c, sn, n, mu);
    PerifocalState(frame.0, frame.1, p, e, c, sn, n)
  }

  /** The state built from the perifocal position and velocity in an orthonormal frame lies
      at the conic's radius and, for p > 0, has squared angular momentum mu p. */
  lemma ConicState(p: Vec3, q: Vec3, sl: real, e: real, c: real, s: real, n: real, mu: real)
    requires Orthonormal(p, q)
    requires UnitCircle(s, c)
    requires FiniteRadius(e, c)
    requires 0.0 < sl && 0.0 <= mu ==> IsSquareRoot(n, mu / sl)
    ensures var xy := PerifocalPosition(sl, e, c, s);
            SquaredNorm(InPlane(p, q, xy.0, xy.1)) == Square(Radius(sl, e, c))
    ensures var xy, uw := PerifocalPosition(sl, e, c, s), PerifocalVelocity(n, e, c, s);
            0.0 < sl && 0.0 <= mu ==> SquaredNorm(Cross(InPlane(p, q, xy.0, xy.1), InPlane(p, q, uw.0, uw.1))) == mu * sl
  {
    var xy, uw := PerifocalPosition(sl, e, c, s), PerifocalVelocity(n, e, c, s);
    PerifocalMomentum(xy.0, xy.1, uw.0, uw.1, n, sl, e, c, s, mu);
    SquareOfEqual(xy.0 * uw.1 - xy.1 * uw.0, n * sl);
    InPlaneNorms(p, q, xy.0, xy.1, uw.0, uw.1);
  }

  lemma SquareOfEqual(a: real, b: real)
    requires a == b
    ensures Square(a) == Square(b)
  {
  }

  lemma MomentumExpansion(x: real, y: real, u: real, w: real, n: real, e: real, c: real, s: real, d: real)
    requires u == -n * s && w == n * (e + c)
    ensures (x * w - y * u) * d == n * ((x * d) * (e + c) + (y * d) * s)
  {
    assert x * w - y * u == x * (n * (e + c)) - y * (-n * s);
  }

  lemma MomentumFactor(n: real, p: real, e: real, c: real, s: real)
    ensures n * ((p * c) * (e + c) + (p * s) * s) == (n * p) * (e * c + (c * c + s * s))
  {
  }

  lemma SquaredMomentum(n: real, p: real, mu: real)
    requires 0.0 < p
    requires n * n == mu / p
    ensures Square(n * p) == mu * p
  {
    assert (mu / p) * p == mu;
    assert Square(n * p) == (n * n) * p * p;
  }

  /** sqrt(mu / p) is a square root for p > 0 and mu >= 0. */
  lemma MeanMotionLike(f: Functions, mu: real, p: real)
    requires Lawful(f)
    requires p != 0.0
    ensures 0.0 < p && 0.0 <= mu ==> IsSquareRoot(f.sqrt(mu / p), mu / p)
  {
    if 0.0 < p && 0.0 <= mu {
      SqrtLaw(f, mu / p);
    }
  }

  // Cartesian -> Keplerian.

  function AngularMomentum(s: CartesianState): Vec3 {
    Cross(s.position, s.velocity)
  }

  /** p == |h|^2 / mu. */
  function SemiLatusRectumOf(s: CartesianState, mu: real): real
    requires mu != 0.0
  {
    SquaredNorm(AngularMomentum(s)) / mu
  }

  /** The vector a / k. */
  function Divided(a: Vec3, k: real): Vec3
    requires k != 0.0
  {
    Vec3(a.x / k, a.y / k, a.z / k)
  }

  /** The eccentricity vector v x h / mu - r / |r|. It lies in the orbital plane. */
  function EccentricityVector(f: Functions, s: CartesianState, mu: real): (ev: Vec3)
    requires Lawful(f)
    requires mu != 0.0
    ensures Dot(ev, AngularMomentum(s)) == 0.0
  {
    EccentricityVectorInPlane(f, s, mu);
    Sub(Divided(Cross(s.velocity, AngularMomentum(s)), mu), Normalized(f, s.position))
  }

  lemma EccentricityVectorInPlane(f: Functions, s: CartesianState, mu: real)
    requires Lawful(f)
    requires mu != 0.0
    ensures Dot(Sub(Divided(Cross(s.velocity, AngularMomentum(s)), mu), Normalized(f, s.position)),
                AngularMomentum(s)) == 0.0
  {
    var h := AngularMomentum(s);
    CrossOrthogonal(s.velocity, h);
    CrossOrthogonal(s.position, s.velocity);
    QuotientOrthogonal(Cross(s.velocity, h), mu, h);
    NormalizedOrthogonal(f, s.position, h);
    DifferenceOrthogonal(Divided(Cross(s.velocity, h), mu), Normalized(f, s.position), h);
  }

  lemma DifferenceOrthogonal(a: Vec3, b: Vec3, c: Vec3)
    requires Dot(a, c) == 0.0 && Dot(b, c) == 0.0
    ensures Dot(Sub(a, b), c) == 0.0
  {
    assert Dot(Sub(a, b), c) == Dot(a, c) - Dot(b, c);
  }

  lemma QuotientOrthogonal(a: Vec3, k: real, b: Vec3)
    requires k != 0.0
    requires Dot(a, b) == 0.0
    ensures Dot(Divided(a, k), b) == 0.0
  {
    assert Dot(Divided(a, k), b) * k == Dot(a, b);
  }

  lemma NormalizedOrthogonal(f: Functions, a: Vec3, b: Vec3)
    requires Lawful(f)
    requires Dot(a, b) == 0.0
    ensures Dot(Normalized(f, a), b) == 0.0
  {
    if a != Zero {
      var u, n := Normalized(f, a), Norm(f, a);
      assert Scale(n, u) == a;
      assert Dot(u, b) * n == Dot(a, b);
    }
  }

  /** The eccentricity |e|, a square root of the squared norm of the eccentricity vector. */
  function Eccentricity(f: Functions, s: CartesianState, mu: real): (e: real)
    requires Lawful(f)
    requires mu != 0.0
    ensures IsSquareRoot(e, SquaredNorm(EccentricityVector(f, s, mu)))
  {
    Norm(f, EccentricityVector(f, s, mu))
  }

  /** The first element: p for an orbit within the tolerance of parabolic, otherwise the
      semi-major axis a with a (1 - e^2) == p. */
  function SizeElement(p: real, e: real): (a: real)
    requires 0.0 <= e
    ensures Abs(e - 1.0) < Tolerance ==> a == p
    ensures Tolerance <= Abs(e - 1.0) ==> AxisAndRectum(a, e, p)
  {
    if Abs(e - 1.0) < Tolerance then
      p
    else
      NonParabolicDivisor(e);
      p / (1.0 - e * e)
  }

  /** Away from e == 1, and for e >= 0, 1 - e^2 is not zero. */
  lemma NonParabolicDivisor(e: real)
    requires 0.0 <= e
    requires Tolerance <= Abs(e - 1.0)
    ensures 1.0 - e * e != 0.0
  {
    assert 1.0 - e * e == (1.0 - e) * (1.0 + e);
    if 1.0 - e * e == 0.0 {
      ZeroProduct(1.0 - e, 1.0 + e);
      assert false;
    }
  }

  /** i is the angle between h and the z axis: cos i |h| == h_z. */
  predicate InclinationOf(f: Functions, i: real, h: Vec3)
    requires Lawful(f)
  {
    f.cos(i) * Norm(f, h) == h.z
  }

  /** The inclination acos(h_z / |h|): the angle between the angular momentum and the z axis. */
  function Inclination(f: Functions, h: Vec3): (i: real)
    requires Lawful(f)
    requires h != Zero
    ensures 0.0 <= i <= f.pi
    ensures InclinationOf(f, i, h)
  {
    var n := Norm(f, h);
    NormalizedBound(f, h);
    CoordinateBounds(Normalized(f, h));
    assert Normalized(f, h).z == h.z / n;
    AcosLaw(f, h.z / n);
    f.acos(h.z / n)
  }

  /** The unit vector towards the ascending node, (z x h / |h|) normalized. It lies in the
      equatorial plane and has norm at most one (zero for an orbit in the equatorial plane). */
  function NodeVector(f: Functions, h: Vec3): (node: Vec3)
    requires Lawful(f)
    ensures node.z == 0.0
    ensures SquaredNorm(node) <= 1.0
  {
    NodeVectorBounds(f, Horizontal(Normalized(f, h)));
    Normalized(f, Horizontal(Normalized(f, h)))
  }

  /** z x u, which has no z component. */
  function Horizontal(u: Vec3): (m: Vec3)
    ensures m == Cross(UnitZ, u)
  {
    Vec3(-u.y, u.x, 0.0)
  }

  lemma NodeVectorBounds(f: Functions, m: Vec3)
    requires Lawful(f)
    requires m.z == 0.0
    ensures Normalized(f, m).z == 0.0 && SquaredNorm(Normalized(f, m)) <= 1.0
  {
    NormalizedBound(f, m);
    NormalizedKeepsZ(f, m);
  }

  lemma NormalizedKeepsZ(f: Functions, a: Vec3)
    requires Lawful(f)
    requires a.z == 0.0
    ensures Normalized(f, a).z == 0.0
  {
    if a != Zero {
      var n := Norm(f, a);
      assert Scale(n, Normalized(f, a)) == a;
      assert n * Normalized(f, a).z == 0.0;
    }
  }

  predicate IsEquatorial(inclination: real) {
    Abs(inclination) < Tolerance
  }

  predicate IsCircular(e: real) {
    Abs(e) < Tolerance
  }

  /** The node vector used for the angles: the x axis for an equatorial orbit. */
  function AscendingNode(f: Functions, h: Vec3, inclination: real): (node: Vec3)
    requires Lawful(f)
    ensures node.z == 0.0
    ensures SquaredNorm(node) <= 1.0
    ensures IsEquatorial(inclination) ==> node == UnitX
  {
    if IsEquatorial(inclination) then UnitX else NodeVector(f, h)
  }

  /** An orbit whose angular momentum points along -z has inclination pi, which the
      equatorial test does not catch. z x h-hat is then the zero vector, `normalized()` keeps
      it zero, and the longitude of the ascending node is acos(0), a quarter turn. */
  lemma RetrogradeEquatorialNode(f: Functions, h: Vec3)
    requires Lawful(f)
    requires h.x == 0.0 && h.y == 0.0 && h.z < 0.0
    ensures Inclination(f, h) == f.pi && !IsEquatorial(Inclination(f, h))
    ensures AscendingNode(f, h, Inclination(f, h)) == Zero
    ensures LongitudeOfAscendingNode(f, Zero) == f.acos(0.0)
  {
    RetrogradeInclination(f, h);
    PiNotEquatorial(f);
    RetrogradeNodeVector(f, h);
    RetrogradeAscendingNode(f, h);
    ZeroNodeLongitude(f);
  }

  lemma PiNotEquatorial(f: Functions)
    requires Lawful(f)
    ensures !IsEquatorial(f.pi)
  {
  }

  lemma ZeroNodeLongitude(f: Functions)
    requires Lawful(f)
    ensures LongitudeOfAscendingNode(f, Zero) == f.acos(0.0)
  {
  }

  lemma RetrogradeAscendingNode(f: Functions, h: Vec3)
    requires Lawful(f)
    requires h.x == 0.0 && h.y == 0.0 && h.z < 0.0
    requires !IsEquatorial(Inclination(f, h))
    requires NodeVector(f, h) == Zero
    ensures AscendingNode(f, h, Inclination(f, h)) == Zero
  {
  }

  lemma RetrogradeInclination(f: Functions, h: Vec3)
    requires Lawful(f)
    requires h.x == 0.0 && h.y == 0.0 && h.z < 0.0
    ensures Inclination(f, h) == f.pi
  {
    var n := Norm(f, h);
    assert SquaredNorm(h) == (-h.z) * (-h.z);
    SquareRootOfSquare(n, -h.z);
    assert h.z / n == -1.0;
  }

  lemma RetrogradeNodeVector(f: Functions, h: Vec3)
    requires Lawful(f)
    requires h.x == 0.0 && h.y == 0.0 && h.z < 0.0
    ensures NodeVector(f, h) == Zero
  {
    var u := Normalized(f, h);
    assert u.x == h.x / Norm(f, h) && u.y == h.y / Norm(f, h);
    assert Horizontal(u) == Zero;
  }

  /** The longitude of the ascending node: the angle of the node vector, acos(node_x) flipped
      to 2 pi - acos(node_x) when node_y < 0. */
  function LongitudeOfAscendingNode(f: Functions, node: Vec3): (raan: real)
    requires Lawful(f)
    requires SquaredNorm(node) <= 1.0
    ensures AngleWith(f, raan, node.x, node.y)
    ensures node == UnitX ==> raan == 0.0
  {
    CoordinateBounds(node);
    AngleFromCosine(f, node.x, node.y)
  }

  /** The argument of periapsis of a non-circular orbit from d, the cosine between the
      eccentricity and node vectors: pi below -1, 0 above 1, acos(d) otherwise, flipped to
      2 pi minus that when the quadrant condition is negative. */
  function ClampedAngle(f: Functions, d: real, quadrant: real): (w: real)
    requires Lawful(f)
    ensures 0.0 <= w <= 2.0 * f.pi
    ensures d < -1.0 ==> w == f.pi
    ensures 1.0 < d ==> w == (if quadrant < 0.0 then 2.0 * f.pi else 0.0)
    ensures -1.0 <= d <= 1.0 ==> AngleWith(f, w, d, quadrant)
  {
    if -1.0 <= d <= 1.0 then
      AngleFromCosine(f, d, quadrant)
    else
      var w0 := if d < -1.0 then f.pi else 0.0;
      if quadrant < 0.0 then 2.0 * f.pi - w0 else w0
  }

  /** The cosine of the true anomaly, snapped to exactly 1, -1 or 0 when within the tolerance
      of one of them. Snapping moves it by less than the tolerance and keeps it in [-1, 1]. */
  function SnapCosine(d: real): (c: real)
    ensures c == d || c == 1.0 || c == -1.0 || c == 0.0
    ensures Abs(c - d) < Tolerance
    ensures Abs(1.0 - d) < Tolerance ==> c == 1.0
    ensures Abs(1.0 + d) < Tolerance ==> c == -1.0
    ensures Abs(d) < Tolerance ==> c == 0.0
    ensures -1.0 <= d <= 1.0 ==> -1.0 <= c <= 1.0
  {
    var d1 := if Abs(1.0 - d) < Tolerance then 1.0 else d;
    var d2 := if Abs(1.0 + d1) < Tolerance then -1.0 else d1;
    if Abs(d2) < Tolerance then 0.0 else d2
  }

  /** The values Cartesian -> Keplerian derives from the state. */
  datatype Derived = Derived(
    h: Vec3, eccentricityVector: Vec3, e: real, inclination: real, node: Vec3)

  function Derive(f: Functions, s: CartesianState, mu: real): (d: Derived)
    requires Lawful(f)
    requires mu != 0.0
    requires AngularMomentum(s) != Zero
    ensures d.h == AngularMomentum(s) && d.h != Zero
    ensures d.eccentricityVector == EccentricityVector(f, s, mu)
    ensures IsSquareRoot(d.e, SquaredNorm(d.eccentricityVector))
    ensures 0.0 <= d.inclination <= f.pi
    ensures InclinationOf(f, d.inclination, d.h)
    ensures d.node.z == 0.0 && SquaredNorm(d.node) <= 1.0
    ensures IsEquatorial(d.inclination) ==> d.node == UnitX
  {
    var h := AngularMomentum(s);
    var i := Inclination(f, h);
    Derived(h, EccentricityVector(f, s, mu), Eccentricity(f, s, mu), i, AscendingNode(f, h, i))
  }

  /** The cosine between the eccentricity direction and the node vector. */
  function PeriapsisCosine(f: Functions, d: Derived): real
    requires Lawful(f)
  {
    Dot(Normalized(f, d.eccentricityVector), d.node)
  }

  /** The sign test for the argument of periapsis: e_z, or e_y for an equatorial orbit. */
  function PeriapsisQuadrant(d: Derived): real {
    if IsEquatorial(d.inclination) then d.eccentricityVector.y else d.eccentricityVector.z
  }

  /** The argument of periapsis: zero for a circular orbit; otherwise, for a node vector of
      norm at most one, the angle with cosine `PeriapsisCosine` in the half-turn
      `PeriapsisQuadrant` selects. */
  function ArgumentOfPeriapsis(f: Functions, d: Derived): (w: real)
    requires Lawful(f)
    ensures 0.0 <= w <= 2.0 * f.pi
    ensures IsCircular(d.e) ==> w == 0.0
    ensures !IsCircular(d.e) && SquaredNorm(d.node) <= 1.0 ==>
              AngleWith(f, w, PeriapsisCosine(f, d), PeriapsisQuadrant(d))
  {
    if IsCircular(d.e) then
      0.0
    else
      PeriapsisCosineBounds(f, d);
      ClampedAngle(f, PeriapsisCosine(f, d), PeriapsisQuadrant(d))
  }

  /** With a node vector of norm at most one the cosine needs no clamping. */
  lemma PeriapsisCosineBounds(f: Functions, d: Derived)
    requires Lawful(f)
    ensures SquaredNorm(d.node) <= 1.0 ==> -1.0 <= PeriapsisCosine(f, d) <= 1.0
  {
    if SquaredNorm(d.node) <= 1.0 {
      NormalizedBound(f, d.eccentricityVector);
      DotBounds(Normalized(f, d.eccentricityVector), d.node);
    }
  }

  /** The direction from which the true anomaly is measured: the eccentricity vector, or the
      node vector for a circular orbit. */
  function PeriapsisDirection(d: Derived): Vec3 {
    if IsCircular(d.e) then d.node else d.eccentricityVector
  }

  /** The sign test for the true anomaly: r . v, or for a circular orbit r_y when the node is
      the x axis and r_z otherwise. */
  function TrueAnomalyQuadrant(s: CartesianState, d: Derived): real {
    if !IsCircular(d.e) then Dot(s.position, s.velocity)
    else if d.node == UnitX then s.position.y
    else s.position.z
  }

  /** The cosine between the position and the periapsis direction, before snapping. */
  function TrueAnomalyCosine(f: Functions, s: CartesianState, d: Derived): (c: real)
    requires Lawful(f)
    ensures -1.0 <= c <= 1.0
  {
    var rHat, pHat := Normalized(f, s.position), Normalized(f, PeriapsisDirection(d));
    NormalizedBound(f, s.position);
    NormalizedBound(f, PeriapsisDirection(d));
    DotBounds(rHat, pHat);
    Dot(rHat, pHat)
  }

  /** The true anomaly: the angle whose cosine is the snapped cosine, in the half-turn the
      quadrant condition selects. Its cosine is within the tolerance of the unsnapped one. */
  function TrueAnomaly(f: Functions, s: CartesianState, d: Derived): (nu: real)
    requires Lawful(f)
    ensures AngleWith(f, nu, SnapCosine(TrueAnomalyCosine(f, s, d)), TrueAnomalyQuadrant(s, d))
    ensures CosineNear(f, nu, TrueAnomalyCosine(f, s, d))
  {
    SnappedAngle(f, TrueAnomalyCosine(f, s, d), TrueAnomalyQuadrant(s, d))
  }

  /** The cosine of `angle` is within the tolerance of c. */
  ghost predicate CosineNear(f: Functions, angle: real, c: real) {
    Abs(f.cos(angle) - c) < Tolerance
  }

  /** The angle with the snapped cosine of c in the half-turn the quadrant condition selects;
      its cosine is within the tolerance of c. */
  function SnappedAngle(f: Functions, c: real, quadrant: real): (angle: real)
    requires Lawful(f)
    requires -1.0 <= c <= 1.0
    ensures AngleWith(f, angle, SnapCosine(c), quadrant)
    ensures CosineNear(f, angle, c)
  {
    AngleFromCosine(f, SnapCosine(c), quadrant)
  }

  /** Cartesian -> Keplerian. */
  function CartesianToKeplerian(f: Functions, s: CartesianState, mu: real): (k: Keplerian)
    requires Lawful(f)
    requires mu != 0.0
    requires AngularMomentum(s) != Zero
    ensures IsSquareRoot(k.eccentricity, SquaredNorm(EccentricityVector(f, s, mu)))
    ensures Abs(k.eccentricity - 1.0) < Tolerance ==> k.semiMajorAxis == SemiLatusRectumOf(s, mu)
    ensures Tolerance <= Abs(k.eccentricity - 1.0) ==> AxisAndRectum(k.semiMajorAxis, k.eccentricity, SemiLatusRectumOf(s, mu))
    ensures 0.0 <= k.inclination <= f.pi
    ensures InclinationOf(f, k.inclination, AngularMomentum(s))
    ensures 0.0 <= k.longitudeOfAscendingNode <= 2.0 * f.pi
    ensures IsEquatorial(k.inclination) ==> k.longitudeOfAscendingNode == 0.0
    ensures AngleWith(f, k.longitudeOfAscendingNode, Derive(f, s, mu).node.x, Derive(f, s, mu).node.y)
    ensures 0.0 <= k.argumentOfPeriapsis <= 2.0 * f.pi
    ensures IsCircular(k.eccentricity) ==> k.argumentOfPeriapsis == 0.0
    ensures !IsCircular(k.eccentricity) ==>
              AngleWith(f, k.argumentOfPeriapsis, PeriapsisCosine(f, Derive(f, s, mu)), PeriapsisQuadrant(Derive(f, s, mu)))
    ensures 0.0 <= k.trueAnomaly <= 2.0 * f.pi
    ensures AngleWith(f, k.trueAnomaly, SnapCosine(TrueAnomalyCosine(f, s, Derive(f, s, mu))),
                      TrueAnomalyQuadrant(s, Derive(f, s, mu)))
    ensures CosineNear(f, k.trueAnomaly, TrueAnomalyCosine(f, s, Derive(f, s, mu)))
  {
    var d := Derive(f, s, mu);
    Keplerian(
      SizeElement(SemiLatusRectumOf(s, mu), d.e),
      d.e,
      d.inclination,
      ArgumentOfPeriapsis(f, d),
      LongitudeOfAscendingNode(f, d.node),
      TrueAnomaly(f, s, d))
  }

  // The two directions together.

  /** Cartesian -> Keplerian recovers the semi-latus rectum Keplerian -> Cartesian used:
      |h|^2 / mu == p for p > 0 and mu > 0. */
  lemma SemiLatusRectumRecovered(f: Functions, k: Keplerian, mu: real)
    requires Lawful(f)
    requires 0.0 < SemiLatusRectum(k) && 0.0 < mu
    requires FiniteRadius(k.eccentricity, f.cos(k.trueAnomaly))
    ensures SemiLatusRectumOf(KeplerianToCartesian(f, k, mu), mu) == SemiLatusRectum(k)
  {
    var s := KeplerianToCartesian(f, k, mu);
    assert SquaredNorm(AngularMomentum(s)) == mu * SemiLatusRectum(k);
  }

  /** The first element survives the round trip through the semi-latus rectum when the
      eccentricity is outside the band where the two directions' parabolic tolerances
      disagree. */
  lemma SizeElementRoundTrip(k: Keplerian)
    requires 0.0 <= k.eccentricity
    requires Abs(k.eccentricity - 1.0) <= ParabolicTolerance || Tolerance <= Abs(k.eccentricity - 1.0)
    ensures SizeElement(SemiLatusRectum(k), k.eccentricity) == k.semiMajorAxis
  {
    var e := k.eccentricity;
    if Tolerance <= Abs(e - 1.0) {
      NonParabolicDivisor(e);
      CancelFactor(SizeElement(SemiLatusRectum(k), e), k.semiMajorAxis, 1.0 - e * e);
    }
  }

  /** Inside the band eps < |e - 1| < 20 eps the round trip of the first element fails:
      Keplerian -> Cartesian reads it as a semi-major axis, Cartesian -> Keplerian returns the
      semi-latus rectum. */
  lemma SizeElementBand()
    ensures var k := Keplerian(1.0, 1.0 + 2.0 * MachineEpsilon, 0.0, 0.0, 0.0, 0.0);
            SizeElement(SemiLatusRectum(k), k.eccentricity) != k.semiMajorAxis
  {
    var k := Keplerian(1.0, 1.0 + 2.0 * MachineEpsilon, 0.0, 0.0, 0.0, 0.0);
    assert ParabolicTolerance < Abs(k.eccentricity - 1.0) < Tolerance;
    assert SemiLatusRectum(k) == 1.0 - k.eccentricity * k.eccentricity;
  }

  // The eccentricity vector and the inclination of the Keplerian -> Cartesian state.

  /** a x (b x c) == (a . c) b - (a . b) c. */
  lemma TripleCross(a: Vec3, b: Vec3, c: Vec3)
    ensures Cross(a, Cross(b, c)) == Sub(Scale(Dot(a, c), b), Scale(Dot(a, b), c))
  {
    TripleCrossX(a, b, c);
    TripleCrossY(a, b, c);
    TripleCrossZ(a, b, c);
  }

  lemma TripleCrossX(a: Vec3, b: Vec3, c: Vec3)
    ensures Cross(a, Cross(b, c)).x == Dot(a, c) * b.x - Dot(a, b) * c.x
  {
    var m := Cross(b, c);
    TripleCrossCoordinate(a.y * m.z - a.z * m.y, a.x, a.y, a.z, b.x, b.y, b.z, c.x, c.y, c.z, Dot(a, c), Dot(a, b));
  }

  lemma TripleCrossY(a: Vec3, b: Vec3, c: Vec3)
    ensures Cross(a, Cross(b, c)).y == Dot(a, c) * b.y - Dot(a, b) * c.y
  {
    var m := Cross(b, c);
    TripleCrossCoordinate(a.z * m.x - a.x * m.z, a.y, a.z, a.x, b.y, b.z, b.x, c.y, c.z, c.x, Dot(a, c), Dot(a, b));
  }

  lemma TripleCrossZ(a: Vec3, b: Vec3, c: Vec3)
    ensures Cross(a, Cross(b, c)).z == Dot(a, c) * b.z - Dot(a, b) * c.z
  {
    var m := Cross(b, c);
    TripleCrossCoordinate(a.x * m.y - a.y * m.x, a.z, a.x, a.y, b.z, b.x, b.y, c.z, c.x, c.y, Dot(a, c), Dot(a, b));
  }

  /** One coordinate of a x (b x c), with the coordinates listed starting from that one. */
  lemma TripleCrossCoordinate(r: real, a1: real, a2: real, a3: real, b1: real, b2: real, b3: real,
                              c1: real, c2: real, c3: real, ac: real, ab: real)
    requires r == a2 * (b1 * c2 - b2 * c1) - a3 * (b3 * c1 - b1 * c3)
    requires ac == a1 * c1 + a2 * c2 + a3 * c3 && ab == a1 * b1 + a2 * b2 + a3 * b3
    ensures r == ac * b1 - ab * c1
  {
    assert a2 * (b1 * c2 - b2 * c1) == a2 * c2 * b1 - a2 * b2 * c1;
    assert a3 * (b3 * c1 - b1 * c3) == a3 * b3 * c1 - a3 * c3 * b1;
    assert ac * b1 == a1 * c1 * b1 + a2 * c2 * b1 + a3 * c3 * b1;
    assert ab * c1 == a1 * b1 * c1 + a2 * b2 * c1 + a3 * b3 * c1;
  }

  /** In an orthonormal frame, the coordinates of x p + y q are its dot products with p and q. */
  lemma InPlaneDots(p: Vec3, q: Vec3, x: real, y: real)
    requires Orthonormal(p, q)
    ensures Dot(InPlane(p, q, x, y), p) == x
    ensures Dot(InPlane(p, q, x, y), q) == y
  {
    InPlaneDot(p, q, x, y, p);
    InPlaneDot(p, q, x, y, q);
    UnitAndZero(x, y, SquaredNorm(p), Dot(q, p));
    UnitAndZero(y, x, SquaredNorm(q), Dot(p, q));
  }

  lemma UnitAndZero(x: real, y: real, one: real, zero: real)
    requires one == 1.0 && zero == 0.0
    ensures x * one + y * zero == x && y * zero + x * one == x
  {
  }

  /** The dot product is linear in its first argument. */
  lemma InPlaneDot(p: Vec3, q: Vec3, x: real, y: real, a: Vec3)
    ensures Dot(InPlane(p, q, x, y), a) == x * Dot(p, a) + y * Dot(q, a)
  {
  }

  /** The angular momentum of two in-plane vectors is (x w - y u) times the frame normal. */
  lemma InPlaneMomentum(p: Vec3, q: Vec3, x: real, y: real, u: real, w: real)
    ensures Cross(InPlane(p, q, x, y), InPlane(p, q, u, w)) == Scale(x * w - y * u, Cross(p, q))
  {
    InPlaneCrossX(p, q, x, y, u, w);
    InPlaneCrossY(p, q, x, y, u, w);
    InPlaneCrossZ(p, q, x, y, u, w);
    SameCoordinates(Cross(InPlane(p, q, x, y), InPlane(p, q, u, w)), Scale(x * w - y * u, Cross(p, q)));
  }

  lemma SameCoordinates(a: Vec3, b: Vec3)
    requires a.x == b.x && a.y == b.y && a.z == b.z
    ensures a == b
  {
  }

  /** The in-plane vector u p + w q crossed with L times the frame normal is L (w p - u q). */
  lemma InPlaneCrossNormal(p: Vec3, q: Vec3, u: real, w: real, l: real)
    requires Orthonormal(p, q)
    ensures Cross(InPlane(p, q, u, w), Scale(l, Cross(p, q))) == InPlane(p, q, l * w, -(l * u))
  {
    var v, m := InPlane(p, q, u, w), -u;
    TripleCross(v, p, q);
    InPlaneDots(p, q, u, w);
    DifferenceInPlane(p, q, w, u);
    assert Cross(v, Cross(p, q)) == InPlane(p, q, w, m);
    ScaledCross(v, Cross(p, q), l);
    ScaledInPlane(p, q, w, m, l);
    NegatedCoefficient(p, q, l * w, l, u, m, Cross(v, Scale(l, Cross(p, q))));
  }

  /** x p + (l m) q with m == -u is x p - (l u) q. */
  lemma NegatedCoefficient(p: Vec3, q: Vec3, x: real, l: real, u: real, m: real, a: Vec3)
    requires m == -u
    requires a == InPlane(p, q, x, l * m)
    ensures a == InPlane(p, q, x, -(l * u))
  {
    assert l * m + l * u == l * (m + u);
  }

  lemma DifferenceInPlane(p: Vec3, q: Vec3, a: real, b: real)
    ensures Sub(Scale(a, p), Scale(b, q)) == InPlane(p, q, a, -b)
  {
    NegatedFactor(b, q.x, -b);
    NegatedFactor(b, q.y, -b);
    NegatedFactor(b, q.z, -b);
    SameCoordinates(Sub(Scale(a, p), Scale(b, q)), InPlane(p, q, a, -b));
  }

  lemma ScaledCross(a: Vec3, b: Vec3, l: real)
    ensures Cross(a, Scale(l, b)) == Scale(l, Cross(a, b))
  {
    ScaledCrossCoordinate(a.y, a.z, b.y, b.z, l);
    ScaledCrossCoordinate(a.z, a.x, b.z, b.x, l);
    ScaledCrossCoordinate(a.x, a.y, b.x, b.y, l);
    SameCoordinates(Cross(a, Scale(l, b)), Scale(l, Cross(a, b)));
  }

  lemma ScaledCrossCoordinate(a1: real, a2: real, b1: real, b2: real, l: real)
    ensures a1 * (l * b2) - a2 * (l * b1) == l * (a1 * b2 - a2 * b1)
  {
  }

  lemma ScaledInPlane(p: Vec3, q: Vec3, x: real, y: real, l: real)
    ensures Scale(l, InPlane(p, q, x, y)) == InPlane(p, q, l * x, l * y)
  {
  }

  lemma DividedInPlane(p: Vec3, q: Vec3, x: real, y: real, k: real)
    requires k != 0.0
    ensures Divided(InPlane(p, q, x, y), k) == InPlane(p, q, x / k, y / k)
  {
    var a, b := Divided(InPlane(p, q, x, y), k), InPlane(p, q, x / k, y / k);
    assert a.x == b.x by { DividedCoordinate(x, y, p.x, q.x, k); }
    assert a.y == b.y by { DividedCoordinate(x, y, p.y, q.y, k); }
    assert a.z == b.z by { DividedCoordinate(x, y, p.z, q.z, k); }
    SameCoordinates(a, b);
  }

  lemma DividedCoordinate(x: real, y: real, a: real, b: real, k: real)
    requires k != 0.0
    ensures (x * a + y * b) / k == (x / k) * a + (y / k) * b
  {
    assert ((x / k) * a + (y / k) * b) * k == x * a + y * b;
  }

  /** With n == sqrt(mu / p), the perifocal velocity's coefficients times n p / mu are
      (e + cos nu, sin nu). */
  lemma VelocityCoefficients(n: real, p: real, mu: real, e: real, c: real, s: real, l: real, u: real, w: real)
    requires 0.0 < p && mu != 0.0
    requires n * n == mu / p
    requires l == n * p && u == -n * s && w == n * (e + c)
    ensures (l * w) / mu == e + c
    ensures (-(l * u)) / mu == s
  {
    assert (n * n) * p == mu;
    assert l * w == ((n * n) * p) * (e + c);
    assert -(l * u) == ((n * n) * p) * s;
  }

  /** The position at radius R > 0 in direction nu normalizes to cos nu p + sin nu q. */
  lemma NormalizedPosition(f: Functions, p: Vec3, q: Vec3, radius: real, c: real, s: real)
    requires Lawful(f)
    requires Orthonormal(p, q)
    requires UnitCircle(s, c)
    requires 0.0 < radius
    ensures Normalized(f, InPlane(p, q, radius * c, radius * s)) == InPlane(p, q, c, s)
  {
    var r, d := InPlane(p, q, radius * c, radius * s), InPlane(p, q, c, s);
    PositionNorm(f, p, q, radius, c, s);
    assert r != Zero;
    var u := Normalized(f, r);
    assert Scale(radius, u) == r;
    ScaledInPlane(p, q, c, s, radius);
    assert Scale(radius, d) == r;
    CancelScale(u, d, radius);
  }

  /** The position at radius R > 0 has norm R. */
  lemma PositionNorm(f: Functions, p: Vec3, q: Vec3, radius: real, c: real, s: real)
    requires Lawful(f)
    requires Orthonormal(p, q)
    requires UnitCircle(s, c)
    requires 0.0 < radius
    ensures Norm(f, InPlane(p, q, radius * c, radius * s)) == radius
  {
    var r := InPlane(p, q, radius * c, radius * s);
    PositionSquaredNorm(p, q, radius, c, s);
    SquareRootOfSquare(Norm(f, r), radius);
  }

  lemma PositionSquaredNorm(p: Vec3, q: Vec3, radius: real, c: real, s: real)
    requires Orthonormal(p, q)
    requires UnitCircle(s, c)
    ensures SquaredNorm(InPlane(p, q, radius * c, radius * s)) == radius * radius
  {
    var x, y := radius * c, radius * s;
    InPlaneSquaredNorm(p, q, x, y);
    OrthonormalCombination(x * x, y * y, 2.0 * x * y, SquaredNorm(p), SquaredNorm(q), Dot(p, q));
    ScaledUnit(radius, c, s, x, y);
  }

  lemma OrthonormalCombination(a: real, b: real, k: real, np: real, nq: real, d: real)
    requires np == 1.0 && nq == 1.0 && d == 0.0
    ensures a * np + k * d + b * nq == a + b
  {
  }

  lemma ScaledUnit(k: real, c: real, s: real, x: real, y: real)
    requires UnitCircle(s, c)
    requires x == k * c && y == k * s
    ensures x * x + y * y == k * k
  {
    assert x * x + y * y == (k * k) * (c * c + s * s);
  }

  lemma CancelScale(a: Vec3, b: Vec3, k: real)
    requires k != 0.0
    requires Scale(k, a) == Scale(k, b)
    ensures a == b
  {
    CancelFactor(a.x, b.x, k);
    CancelFactor(a.y, b.y, k);
    CancelFactor(a.z, b.z, k);
  }

  /** For a positive radius, the eccentricity vector of the conic state is e times the
      direction of periapsis. */
  lemma ConicEccentricityVector(f: Functions, p: Vec3, q: Vec3, sl: real, e: real, c: real, s: real, n: real, mu: real)
    requires Lawful(f)
    requires Orthonormal(p, q)
    requires UnitCircle(s, c)
    requires 0.0 < sl && 0.0 < mu
    requires PositiveRadius(e, c)
    requires IsSquareRoot(n, mu / sl)
    ensures EccentricityVector(f, PerifocalState(p, q, sl, e, c, s, n), mu) == Scale(e, p)
  {
    var state := PerifocalState(p, q, sl, e, c, s, n);
    ConicMomentum(p, q, sl, e, c, s, n, mu);
    ConicVelocityTerm(p, q, sl, e, c, s, n, mu);
    ConicPositionTerm(f, p, q, sl, e, c, s, n);
    InPlaneDifference(p, q, e, c, s);
  }

  /** The angular momentum of the conic state is sqrt(mu / p) p times the frame normal. */
  lemma ConicMomentum(p: Vec3, q: Vec3, sl: real, e: real, c: real, s: real, n: real, mu: real)
    requires UnitCircle(s, c)
    requires FiniteRadius(e, c)
    requires 0.0 < sl && 0.0 <= mu ==> IsSquareRoot(n, mu / sl)
    ensures AngularMomentum(PerifocalState(p, q, sl, e, c, s, n)) == Scale(n * sl, Cross(p, q))
  {
    var xy, uw := PerifocalPosition(sl, e, c, s), PerifocalVelocity(n, e, c, s);
    ConicMomentumOf(p, q, xy.0, xy.1, uw.0, uw.1, sl, e, c, s, n, mu);
  }

  lemma ConicMomentumOf(p: Vec3, q: Vec3, x: real, y: real, u: real, w: real,
                        sl: real, e: real, c: real, s: real, n: real, mu: real)
    requires UnitCircle(s, c)
    requires FiniteRadius(e, c)
    requires x * (1.0 + e * c) == sl * c && y * (1.0 + e * c) == sl * s
    requires u == -n * s && w == n * (e + c)
    requires 0.0 < sl && 0.0 <= mu ==> IsSquareRoot(n, mu / sl)
    ensures Cross(InPlane(p, q, x, y), InPlane(p, q, u, w)) == Scale(n * sl, Cross(p, q))
  {
    PerifocalMomentum(x, y, u, w, n, sl, e, c, s, mu);
    InPlaneMomentum(p, q, x, y, u, w);
    ScaleCoefficient(x * w - y * u, n * sl, Cross(p, q));
  }

  lemma ScaleCoefficient(k: real, k': real, a: Vec3)
    requires k == k'
    ensures Scale(k, a) == Scale(k', a)
  {
  }

  /** v x h / mu of the conic state is (e + cos nu) p + sin nu q. */
  lemma ConicVelocityTerm(p: Vec3, q: Vec3, sl: real, e: real, c: real, s: real, n: real, mu: real)
    requires Orthonormal(p, q)
    requires UnitCircle(s, c)
    requires FiniteRadius(e, c)
    requires 0.0 < sl && 0.0 < mu
    requires IsSquareRoot(n, mu / sl)
    requires AngularMomentum(PerifocalState(p, q, sl, e, c, s, n)) == Scale(n * sl, Cross(p, q))
    ensures var state := PerifocalState(p, q, sl, e, c, s, n);
            Divided(Cross(state.velocity, AngularMomentum(state)), mu) == InPlane(p, q, e + c, s)
  {
    var state := PerifocalState(p, q, sl, e, c, s, n);
    var u, w, l := -n * s, n * (e + c), n * sl;
    assert state.velocity == InPlane(p, q, u, w);
    InPlaneCrossNormal(p, q, u, w, l);
    VelocityCoefficients(n, sl, mu, e, c, s, l, u, w);
    DividedInPlane(p, q, l * w, -(l * u), mu);
    InPlaneCoefficients(p, q, (l * w) / mu, (-(l * u)) / mu, e + c, s);
  }

  lemma InPlaneCoefficients(p: Vec3, q: Vec3, x: real, y: real, x': real, y': real)
    requires x == x' && y == y'
    ensures InPlane(p, q, x, y) == InPlane(p, q, x', y')
  {
  }

  /** r / |r| of the conic state is cos nu p + sin nu q when the radius is positive. */
  lemma ConicPositionTerm(f: Functions, p: Vec3, q: Vec3, sl: real, e: real, c: real, s: real, n: real)
    requires Lawful(f)
    requires Orthonormal(p, q)
    requires UnitCircle(s, c)
    requires 0.0 < sl
    requires PositiveRadius(e, c)
    ensures Normalized(f, PerifocalState(p, q, sl, e, c, s, n).position) == InPlane(p, q, c, s)
  {
    var radius := Radius(sl, e, c);
    PositiveQuotient(sl, 1.0 + e * c);
    var xy := PerifocalPosition(sl, e, c, s);
    PerifocalPositionScaled(sl, e, c, s, xy.0, xy.1);
    InPlaneCoefficients(p, q, xy.0, xy.1, radius * c, radius * s);
    NormalizedPosition(f, p, q, radius, c, s);
  }

  lemma PerifocalPositionScaled(sl: real, e: real, c: real, s: real, x: real, y: real)
    requires UnitCircle(s, c)
    requires FiniteRadius(e, c)
    requires x == PerifocalPosition(sl, e, c, s).0 && y == PerifocalPosition(sl, e, c, s).1
    ensures x == Radius(sl, e, c) * c && y == Radius(sl, e, c) * s
  {
    var d := 1.0 + e * c;
    assert x == sl * c / d && y == sl * s / d;
  }

  lemma PositiveQuotient(a: real, b: real)
    requires 0.0 < a && 0.0 < b
    ensures 0.0 < a / b
  {
  }

  lemma InPlaneDifference(p: Vec3, q: Vec3, e: real, c: real, s: real)
    ensures Sub(InPlane(p, q, e + c, s), InPlane(p, q, c, s)) == Scale(e, p)
  {
  }

  /** The normal of the orbital frame, p x q, has z component cos i. */
  lemma FrameNormalZ(cO: real, sO: real, cw: real, sw: real, ci: real, si: real)
    requires UnitCircle(sO, cO) && UnitCircle(sw, cw)
    ensures Cross(FrameP(cO, sO, cw, sw, ci, si), FrameQ(cO, sO, cw, sw, ci, si)).z == ci
  {
    FrameNormalExpansion(cO, sO, cw, sw, ci, si);
    UnitTimes(cw * cw + sw * sw, cO * cO + sO * sO);
    UnitTimes(ci, cw * cw + sw * sw);
  }

  lemma FrameNormalExpansion(cO: real, sO: real, cw: real, sw: real, ci: real, si: real)
    ensures Cross(FrameP(cO, sO, cw, sw, ci, si), FrameQ(cO, sO, cw, sw, ci, si)).z
            == ci * ((cw * cw + sw * sw) * (cO * cO + sO * sO))
  {
    var p, q := FrameP(cO, sO, cw, sw, ci, si), FrameQ(cO, sO, cw, sw, ci, si);
    FrameNormalCoordinates(cO, sO, cw, sw, ci, p.x, p.y, q.x, q.y);
  }

  /** p_x q_y - p_y q_x for the frame columns' coordinates. */
  lemma FrameNormalCoordinates(cO: real, sO: real, cw: real, sw: real, ci: real,
                               px: real, py: real, qx: real, qy: real)
    requires px == cO * cw - sO * sw * ci && py == sO * cw + cO * sw * ci
    requires qx == -cO * sw - sO * cw * ci && qy == -sO * sw + cO * cw * ci
    ensures px * qy - py * qx == ci * ((cw * cw + sw * sw) * (cO * cO + sO * sO))
  {
    NegatedFactor(sO, sw, -sO);
    NegatedFactor(cO, sw, -cO);
    FourProducts(cO, sO, cw, sw);
    NormalZ(px, py, qx, qy, cO * cw, sO * sw, sO * cw, cO * sw, ci, px * qy - py * qx,
            (cw * cw + sw * sw) * (cO * cO + sO * sO));
  }

  lemma NegatedFactor(x: real, y: real, m: real)
    requires m == -x
    ensures m * y == -(x * y)
  {
    assert m * y + x * y == (m + x) * y;
  }

  /** p_x q_y - p_y q_x for the frame columns, written with a == cos O cos w, b == sin O sin w,
      g == sin O cos w and h == cos O sin w. */
  lemma NormalZ(px: real, py: real, qx: real, qy: real, a: real, b: real, g: real, h: real, ci: real, z: real,
                n: real)
    requires px == a - b * ci && qy == -b + a * ci
    requires py == g + h * ci && qx == -h - g * ci
    requires z == px * qy - py * qx
    requires a * b == g * h
    requires n == a * a + b * b + g * g + h * h
    ensures z == ci * n
  {
    assert z == ci * (a * a + b * b + g * g + h * h) + (a * b - g * h) * (ci * ci - 1.0);
    assert (a * b - g * h) * (ci * ci - 1.0) == 0.0 * (ci * ci - 1.0);
  }

  lemma FourProducts(cO: real, sO: real, cw: real, sw: real)
    ensures (cO * cw) * (sO * sw) == (sO * cw) * (cO * sw)
    ensures (cO * cw) * (cO * cw) + (sO * sw) * (sO * sw) + (sO * cw) * (sO * cw) + (cO * sw) * (cO * sw)
            == (cw * cw + sw * sw) * (cO * cO + sO * sO)
  {
  }

  /** The frame normal of an orthonormal pair is a unit vector. */
  lemma UnitNormal(p: Vec3, q: Vec3)
    requires Orthonormal(p, q)
    ensures SquaredNorm(Cross(p, q)) == 1.0
  {
    Lagrange(p, q);
  }

  /** l w for l >= 0 and a unit vector w has norm l. */
  lemma ScaledUnitNorm(f: Functions, l: real, w: Vec3)
    requires Lawful(f)
    requires 0.0 <= l
    requires SquaredNorm(w) == 1.0
    ensures Norm(f, Scale(l, w)) == l
  {
    ScaledCoordinates(Scale(l, w), l, w);
    UnitTimes(Square(l), SquaredNorm(w));
    SquareRootOfSquare(Norm(f, Scale(l, w)), l);
  }

  /** Keplerian -> Cartesian builds the perifocal state in the orbital frame. */
  lemma KeplerianToCartesianState(f: Functions, k: Keplerian, mu: real)
    requires Lawful(f)
    requires SemiLatusRectum(k) != 0.0
    requires FiniteRadius(k.eccentricity, f.cos(k.trueAnomaly))
    ensures UnitCircle(f.sin(k.trueAnomaly), f.cos(k.trueAnomaly))
    ensures KeplerianToCartesian(f, k, mu)
              == PerifocalState(OrbitalFrame(f, k).0, OrbitalFrame(f, k).1, SemiLatusRectum(k), k.eccentricity,
                                f.cos(k.trueAnomaly), f.sin(k.trueAnomaly), f.sqrt(mu / SemiLatusRectum(k)))
  {
    SinCosLaw(f, k.trueAnomaly);
  }

  /** The eccentricity vector of the Keplerian -> Cartesian state is e times the direction of
      periapsis, for p > 0, mu > 0 and a true anomaly the conic reaches (1 + e cos nu > 0). */
  lemma EccentricityVectorRecovered(f: Functions, k: Keplerian, mu: real)
    requires Lawful(f)
    requires 0.0 < SemiLatusRectum(k) && 0.0 < mu
    requires PositiveRadius(k.eccentricity, f.cos(k.trueAnomaly))
    ensures EccentricityVector(f, KeplerianToCartesian(f, k, mu), mu) == Scale(k.eccentricity, OrbitalFrame(f, k).0)
  {
    var p := SemiLatusRectum(k);
    var frame := OrbitalFrame(f, k);
    KeplerianToCartesianState(f, k, mu);
    MeanMotionLike(f, mu, p);
    ConicEccentricityVector(f, frame.0, frame.1, p, k.eccentricity, f.cos(k.trueAnomaly), f.sin(k.trueAnomaly),
                            f.sqrt(mu / p), mu);
  }

  /** The angular momentum of the Keplerian -> Cartesian state is sqrt(mu / p) p times the
      frame normal. */
  lemma MomentumRecovered(f: Functions, k: Keplerian, mu: real)
    requires Lawful(f)
    requires 0.0 < SemiLatusRectum(k) && 0.0 < mu
    requires FiniteRadius(k.eccentricity, f.cos(k.trueAnomaly))
    ensures var p := SemiLatusRectum(k);
            AngularMomentum(KeplerianToCartesian(f, k, mu))
              == Scale(f.sqrt(mu / p) * p, Cross(OrbitalFrame(f, k).0, OrbitalFrame(f, k).1))
  {
    var p := SemiLatusRectum(k);
    var frame := OrbitalFrame(f, k);
    var c, sn, n := f.cos(k.trueAnomaly), f.sin(k.trueAnomaly), f.sqrt(mu / p);
    KeplerianToCartesianState(f, k, mu);
    var state := PerifocalState(frame.0, frame.1, p, k.eccentricity, c, sn, n);
    assert KeplerianToCartesian(f, k, mu) == state;
    assert AngularMomentum(state) == Scale(n * p, Cross(frame.0, frame.1)) by {
      MeanMotionLike(f, mu, p);
      ConicMomentum(frame.0, frame.1, p, k.eccentricity, c, sn, n, mu);
    }
  }

  /** sqrt(mu / p) p is positive for p > 0 and mu > 0. */
  lemma PositiveMomentum(f: Functions, mu: real, p: real)
    requires Lawful(f)
    requires 0.0 < p && 0.0 < mu
    ensures 0.0 < f.sqrt(mu / p) * p
  {
    PositiveQuotient(mu, p);
    SqrtLaw(f, mu / p);
    SquareRootSign(f.sqrt(mu / p), mu / p);
    PositiveProduct(f.sqrt(mu / p), p, f.sqrt(mu / p) * p);
  }

  /** The frame normal is a unit vector with z component cos i. */
  lemma FrameNormal(f: Functions, k: Keplerian)
    requires Lawful(f)
    ensures SquaredNorm(Cross(OrbitalFrame(f, k).0, OrbitalFrame(f, k).1)) == 1.0
    ensures Cross(OrbitalFrame(f, k).0, OrbitalFrame(f, k).1).z == f.cos(k.inclination)
  {
    var frame := OrbitalFrame(f, k);
    UnitNormal(frame.0, frame.1);
    SinCosLaw(f, k.longitudeOfAscendingNode);
    SinCosLaw(f, k.argumentOfPeriapsis);
    FrameNormalZ(f.cos(k.longitudeOfAscendingNode), f.sin(k.longitudeOfAscendingNode),
                 f.cos(k.argumentOfPeriapsis), f.sin(k.argumentOfPeriapsis),
                 f.cos(k.inclination), f.sin(k.inclination));
  }

  /** Keplerian -> Cartesian -> Keplerian recovers the eccentricity, for p > 0, mu > 0, e >= 0
      and a true anomaly the conic reaches. */
  lemma EccentricityRoundTrip(f: Functions, k: Keplerian, mu: real)
    requires Lawful(f)
    requires 0.0 < SemiLatusRectum(k) && 0.0 < mu
    requires 0.0 <= k.eccentricity
    requires PositiveRadius(k.eccentricity, f.cos(k.trueAnomaly))
    ensures Eccentricity(f, KeplerianToCartesian(f, k, mu), mu) == k.eccentricity
  {
    EccentricityVectorRecovered(f, k, mu);
    ScaledUnitNorm(f, k.eccentricity, OrbitalFrame(f, k).0);
  }

  /** Keplerian -> Cartesian -> Keplerian recovers an inclination in [0, pi], for p > 0 and
      mu > 0. */
  lemma InclinationRoundTrip(f: Functions, k: Keplerian, mu: real)
    requires Lawful(f)
    requires 0.0 < SemiLatusRectum(k) && 0.0 < mu
    requires FiniteRadius(k.eccentricity, f.cos(k.trueAnomaly))
    requires 0.0 <= k.inclination <= f.pi
    ensures AngularMomentum(KeplerianToCartesian(f, k, mu)) != Zero
    ensures Inclination(f, AngularMomentum(KeplerianToCartesian(f, k, mu))) == k.inclination
  {
    MomentumRecovered(f, k, mu);
    PositiveMomentum(f, mu, SemiLatusRectum(k));
    FrameNormal(f, k);
    ScaledNormalInclination(f, AngularMomentum(KeplerianToCartesian(f, k, mu)),
                            f.sqrt(mu / SemiLatusRectum(k)) * SemiLatusRectum(k),
                            Cross(OrbitalFrame(f, k).0, OrbitalFrame(f, k).1), k.inclination);
  }

  /** The inclination of l times a unit normal whose z component is cos i0, for l > 0, is i0. */
  lemma ScaledNormalInclination(f: Functions, h: Vec3, l: real, normal: Vec3, i0: real)
    requires Lawful(f)
    requires 0.0 < l
    requires SquaredNorm(normal) == 1.0
    requires h == Scale(l, normal)
    requires normal.z == f.cos(i0)
    requires 0.0 <= i0 <= f.pi
    ensures h != Zero
    ensures Inclination(f, h) == i0
  {
    ScaledUnitNorm(f, l, normal);
    assert h != Zero by {
      assert Norm(f, h) == l;
    }
    var i := Inclination(f, h);
    assert f.cos(i) * l == l * f.cos(i0);
    CancelFactor(f.cos(i), f.cos(i0), l);
    SameCosine(f, i, i0);
  }

  /** Keplerian -> Cartesian -> Keplerian recovers the eccentricity and an inclination in
      [0, pi], and the first element outside the band where the two directions' parabolic
      tolerances disagree; for p > 0, mu > 0, e >= 0 and a true anomaly the conic reaches. */
  lemma CartesianRoundTrip(f: Functions, k: Keplerian, mu: real)
    requires Lawful(f)
    requires 0.0 < SemiLatusRectum(k) && 0.0 < mu
    requires 0.0 <= k.eccentricity
    requires PositiveRadius(k.eccentricity, f.cos(k.trueAnomaly))
    requires 0.0 <= k.inclination <= f.pi
    ensures AngularMomentum(KeplerianToCartesian(f, k, mu)) != Zero
    ensures var back := CartesianToKeplerian(f, KeplerianToCartesian(f, k, mu), mu);
            && back.eccentricity == k.eccentricity
            && back.inclination == k.inclination
            && (Abs(k.eccentricity - 1.0) <= ParabolicTolerance || Tolerance <= Abs(k.eccentricity - 1.0) ==>
                  back.semiMajorAxis == k.semiMajorAxis)
  {
    var s := KeplerianToCartesian(f, k, mu);
    InclinationRoundTrip(f, k, mu);
    EccentricityRoundTrip(f, k, mu);
    SemiLatusRectumRecovered(f, k, mu);
    var d := Derive(f, s, mu);
    assert d.e == k.eccentricity && d.inclination == k.inclination;
    if Abs(k.eccentricity - 1.0) <= ParabolicTolerance || Tolerance <= Abs(k.eccentricity - 1.0) {
      SizeElementRoundTrip(k);
    }
  }
}
