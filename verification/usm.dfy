/** Keplerian elements against the Unified State Model (unifiedStateModelElementConversions.cpp).

    The Unified State Model describes an orbit by the velocity hodograph, the parameters C,
    Rf1 and Rf2, and by the attitude quaternion (epsilon1, epsilon2, epsilon3, eta) of the
    orbital frame. Both directions treat magnitudes below 1e-15 as zero.
 */
module Usm {
  import opened Results
  import opened Elementary
  import opened Elements
  import opened Angles

  datatype UnifiedState = UnifiedState(
    c: real, rf1: real, rf2: real, epsilon1: real, epsilon2: real, epsilon3: real, eta: real)

  /** The singularity tolerance of both directions. */
  const SingularityTolerance: real := 1.0 / 1000000000000000.0

  predicate UnitQuaternion(u: UnifiedState) {
    Square(u.epsilon1) + Square(u.epsilon2) + Square(u.epsilon3) + Square(u.eta) == 1.0
  }

  predicate Parabolic(e: real) {
    Abs(e - 1.0) < SingularityTolerance
  }

  // Keplerian -> Unified State Model.

  /** The semi-latus rectum: the first element itself for a parabolic orbit, a (1 - e^2)
      otherwise. */
  function SemiLatusRectum(k: Keplerian): real {
    if Parabolic(k.eccentricity) then
      k.semiMajorAxis
    else
      k.semiMajorAxis * (1.0 - k.eccentricity * k.eccentricity)
  }

  /** The quaternion of the orbital frame for inclination i, node raan and argument of
      latitude u: a unit quaternion whose first pair has squared norm sin^2(i/2), so that
      cos i == 1 - 2 (q0^2 + q1^2). */
  function Quaternion(f: Functions, i: real, raan: real, u: real): (q: (real, real, real, real))
    requires Lawful(f)
    ensures Square(q.0) + Square(q.1) + Square(q.2) + Square(q.3) == 1.0
    ensures f.cos(i) == 1.0 - 2.0 * (Square(q.0) + Square(q.1))
  {
    var s, c := f.sin(0.5 * i), f.cos(0.5 * i);
    SinCosLaw(f, 0.5 * (raan - u));
    SinCosLaw(f, 0.5 * (raan + u));
    ScaledPair(s, f.cos(0.5 * (raan - u)), f.sin(0.5 * (raan - u)));
    ScaledPair(c, f.cos(0.5 * (raan + u)), f.sin(0.5 * (raan + u)));
    HalfAngleLaw(f, i);
    SinCosLaw(f, 0.5 * i);
    (s * f.cos(0.5 * (raan - u)), s * f.sin(0.5 * (raan - u)),
     c * f.sin(0.5 * (raan + u)), c * f.cos(0.5 * (raan + u)))
  }

  /** Scaling a point of the unit circle by a scales its squared norm by a^2. */
  lemma ScaledPair(a: real, x: real, y: real)
    requires UnitCircle(y, x)
    ensures Square(a * x) + Square(a * y) == Square(a)
  {
    assert Square(a * x) + Square(a * y) == Square(a) * (x * x + y * y);
  }

  /** The hodograph (C, Rf1, Rf2): C == sqrt(mu / p) and (Rf1, Rf2) == e C (-sin, cos) of
      the longitude of periapsis Omega + omega, of norm |e C|. */
  function Hodograph(f: Functions, k: Keplerian, mu: real): (h: (real, real, real))
    requires Lawful(f)
    requires SemiLatusRectum(k) != 0.0
    ensures 0.0 <= mu / SemiLatusRectum(k) ==> IsSquareRoot(h.0, mu / SemiLatusRectum(k))
    ensures h.1 * h.1 + h.2 * h.2 == Square(k.eccentricity * h.0)
  {
    var c := f.sqrt(mu / SemiLatusRectum(k));
    RootWhereDefined(f, mu / SemiLatusRectum(k));
    var angle := k.longitudeOfAscendingNode + k.argumentOfPeriapsis;
    SinCosLaw(f, angle);
    RotatedPair(k.eccentricity * c, f.cos(angle), f.sin(angle));
    (c, -(k.eccentricity * c) * f.sin(angle), (k.eccentricity * c) * f.cos(angle))
  }

  /** r (-sin, cos) has norm |r|. */
  lemma RotatedPair(r: real, c: real, s: real)
    requires UnitCircle(s, c)
    ensures (-r * s) * (-r * s) + (r * c) * (r * c) == Square(r)
  {
    assert (-r * s) * (-r * s) + (r * c) * (r * c) == (r * r) * (c * c + s * s);
  }

  /** Keplerian -> Unified State Model. An inclination outside [0, pi] is an error.
      Otherwise C is sqrt(mu / p) (when mu / p >= 0), (Rf1, Rf2) has norm e C, the quaternion
      has norm one, and it encodes the inclination: cos i == 1 - 2 (epsilon1^2 + epsilon2^2). */
  function KeplerianToUsm(f: Functions, k: Keplerian, mu: real): (r: Result<UnifiedState>)
    requires Lawful(f)
    requires 0.0 <= k.inclination <= f.pi ==> SemiLatusRectum(k) != 0.0
    ensures r.Err? <==> k.inclination < 0.0 || f.pi < k.inclination
    ensures r.Err? ==> r.error == InvalidInclination
    ensures r.Ok? && 0.0 <= mu / SemiLatusRectum(k) ==> IsSquareRoot(r.value.c, mu / SemiLatusRectum(k))
    ensures r.Ok? ==> HodographSquare(r.value) == Square(k.eccentricity * r.value.c)
    ensures r.Ok? ==> UnitQuaternion(r.value)
    ensures r.Ok? ==> f.cos(k.inclination) == 1.0 - 2.0 * (Square(r.value.epsilon1) + Square(r.value.epsilon2))
  {
    if k.inclination < 0.0 || k.inclination > f.pi then
      Err(InvalidInclination)
    else
      var h := Hodograph(f, k, mu);
      var q := Quaternion(f, k.inclination, k.longitudeOfAscendingNode, k.argumentOfPeriapsis + k.trueAnomaly);
      Ok(UnifiedState(h.0, h.1, h.2, q.0, q.1, q.2, q.3))
  }

  lemma RootWhereDefined(f: Functions, x: real)
    requires Lawful(f)
    ensures 0.0 <= x ==> IsSquareRoot(f.sqrt(x), x)
  {
    if 0.0 <= x {
      SqrtLaw(f, x);
    }
  }

  // Unified State Model -> Keplerian.

  /** epsilon3 and eta both negligible: the orbit is pure-retrograde (i == pi). */
  predicate PureRetrograde(u: UnifiedState) {
    Abs(u.epsilon3) < SingularityTolerance && Abs(u.eta) < SingularityTolerance
  }

  /** epsilon1 and epsilon2 both negligible: the orbit is pure-prograde (i == 0). */
  predicate PurePrograde(u: UnifiedState) {
    Abs(u.epsilon1) < SingularityTolerance && Abs(u.epsilon2) < SingularityTolerance
  }

  /** Rf1^2 + Rf2^2, the squared hodograph parameter R. */
  function HodographSquare(u: UnifiedState): real {
    u.rf1 * u.rf1 + u.rf2 * u.rf2
  }

  /** The hodograph parameter R == sqrt(Rf1^2 + Rf2^2). */
  function HodographR(f: Functions, u: UnifiedState): (r: real)
    requires Lawful(f)
    ensures IsSquareRoot(r, HodographSquare(u))
  {
    NonNegativeSquare(u.rf1);
    NonNegativeSquare(u.rf2);
    SqrtLaw(f, HodographSquare(u));
    f.sqrt(HodographSquare(u))
  }

  /** A pair of reals not both negligible has a positive squared norm. */
  lemma NotBothNegligible(a: real, b: real)
    requires !(Abs(a) < SingularityTolerance && Abs(b) < SingularityTolerance)
    ensures 0.0 < a * a + b * b
  {
    NonNegativeSquare(a);
    NonNegativeSquare(b);
  }

  /** (cos lambda, sin lambda) of the angle lambda == Omega + u, from epsilon3 and eta:
      the point of the unit circle along (eta^2 - epsilon3^2, 2 epsilon3 eta). */
  function LambdaCosSin(u: UnifiedState): (cs: (real, real))
    requires !PureRetrograde(u)
    ensures UnitCircle(cs.1, cs.0)
    ensures cs.0 * (u.epsilon3 * u.epsilon3 + u.eta * u.eta) == u.eta * u.eta - u.epsilon3 * u.epsilon3
    ensures cs.1 * (u.epsilon3 * u.epsilon3 + u.eta * u.eta) == 2.0 * u.epsilon3 * u.eta
  {
    var d := u.epsilon3 * u.epsilon3 + u.eta * u.eta;
    NotBothNegligible(u.epsilon3, u.eta);
    DoubleAngleIdentity(u.epsilon3, u.eta);
    ScaledUnitCircle((u.eta * u.eta - u.epsilon3 * u.epsilon3) / d, (2.0 * u.epsilon3 * u.eta) / d,
                     u.eta * u.eta - u.epsilon3 * u.epsilon3, 2.0 * u.epsilon3 * u.eta, d);
    ((u.eta * u.eta - u.epsilon3 * u.epsilon3) / d, (2.0 * u.epsilon3 * u.eta) / d)
  }

  lemma DoubleAngleIdentity(s: real, c: real)
    ensures (c * c - s * s) * (c * c - s * s) + (2.0 * s * c) * (2.0 * s * c)
            == (s * s + c * c) * (s * s + c * c)
  {
  }

  /** lambda, the angle atan2(sin lambda, cos lambda) in [-pi, pi]. */
  function Lambda(f: Functions, u: UnifiedState): (l: real)
    requires Lawful(f)
    requires !PureRetrograde(u)
    ensures -f.pi <= l <= f.pi
    ensures f.cos(l) == LambdaCosSin(u).0 && f.sin(l) == LambdaCosSin(u).1
  {
    var cs := LambdaCosSin(u);
    Atan2Law(f, cs.1, cs.0);
    f.atan2(cs.1, cs.0)
  }

  /** The hodograph velocity components (ve1, ve2) in the frame rotated by lambda. Removing C,
      the rotation keeps the norm: ve1^2 + (ve2 - C)^2 == R^2. */
  function HodographVelocity(u: UnifiedState, cl: real, sl: real): (v: (real, real))
    requires UnitCircle(sl, cl)
    ensures v.0 * v.0 + (v.1 - u.c) * (v.1 - u.c) == HodographSquare(u)
    ensures v.1 - u.c == u.rf2 * cl - u.rf1 * sl
  {
    RotationNorm(u.rf1, u.rf2, cl, sl);
    UnitScale(HodographSquare(u), cl * cl + sl * sl);
    (u.rf1 * cl + u.rf2 * sl, u.c - u.rf1 * sl + u.rf2 * cl)
  }

  lemma RotationNorm(a: real, b: real, c: real, s: real)
    ensures (a * c + b * s) * (a * c + b * s) + (b * c - a * s) * (b * c - a * s) == (a * a + b * b) * (c * c + s * s)
  {
  }

  lemma UnitScale(k: real, a: real)
    requires a == 1.0
    ensures k * a == k
  {
  }

  /** The energy divisor 2 C ve2 - (ve1^2 + ve2^2) equals C^2 - R^2. */
  lemma EnergyDivisor(c: real, ve1: real, ve2: real, rr: real)
    requires ve1 * ve1 + (ve2 - c) * (ve2 - c) == rr
    ensures 2.0 * c * ve2 - (ve1 * ve1 + ve2 * ve2) == c * c - rr
  {
  }

  /** e C == R: the eccentricity the hodograph determines. */
  predicate HodographEccentricity(e: real, u: UnifiedState) {
    IsSquareRoot(e * u.c, HodographSquare(u))
  }

  /** The first element a from the hodograph: a C^2 == mu (a being the semi-latus rectum)
      near e == 1, and the vis-viva form a (C^2 - R^2) == mu otherwise. */
  predicate SizeFromHodograph(a: real, e: real, u: UnifiedState, mu: real) {
    && (Parabolic(e) ==> a * (u.c * u.c) == mu)
    && (!Parabolic(e) ==> a * (u.c * u.c - HodographSquare(u)) == mu)
  }

  /** A non-negative r with r^2 == c^2 and c > 0 is c itself. */
  lemma RootOfSquare(r: real, c: real)
    requires 0.0 <= r
    ensures 0.0 < c && r * r == c * c ==> r == c
  {
    if 0.0 < c && r * r == c * c {
      EqualSquares(r, c);
    }
  }

  /** Outside the parabolic band, C^2 - R^2 is not zero: R == |C| would make the eccentricity
      e == R / C equal to 1 (C > 0), and it is excluded for C < 0. */
  lemma NonParabolicDivisor(e: real, u: UnifiedState)
    requires HodographEccentricity(e, u)
    requires u.c != 0.0
    requires u.c < 0.0 ==> HodographSquare(u) != u.c * u.c
    requires !Parabolic(e)
    ensures u.c * u.c - HodographSquare(u) != 0.0
  {
    RootOfSquare(e * u.c, u.c);
    assert e * u.c == u.c ==> e == 1.0;
  }

  /** The eccentricity R / C: the value e with e C == R. */
  function Eccentricity(f: Functions, u: UnifiedState): (e: real)
    requires Lawful(f)
    requires u.c != 0.0
    ensures HodographEccentricity(e, u)
  {
    var r := HodographR(f, u);
    assert (r / u.c) * u.c == r;
    r / u.c
  }

  /** The energy divisor 2 C ve2 - (ve1^2 + ve2^2) of the semi-major axis; it equals
      C^2 - R^2. */
  function EnergyDivisorOf(u: UnifiedState): (d: real)
    requires !PureRetrograde(u)
    ensures d == u.c * u.c - HodographSquare(u)
  {
    var cs := LambdaCosSin(u);
    var v := HodographVelocity(u, cs.0, cs.1);
    EnergyDivisor(u.c, v.0, v.1, HodographSquare(u));
    2.0 * u.c * v.1 - (v.0 * v.0 + v.1 * v.1)
  }

  /** The first element: mu / C^2 (the semi-latus rectum) for a parabolic orbit, otherwise
      the semi-major axis mu / (2 C ve2 - (ve1^2 + ve2^2)). */
  function SizeElement(f: Functions, u: UnifiedState, mu: real): (a: real)
    requires Lawful(f)
    requires !PureRetrograde(u)
    requires u.c != 0.0
    requires u.c < 0.0 ==> HodographSquare(u) != u.c * u.c
    ensures SizeFromHodograph(a, Eccentricity(f, u), u, mu)
  {
    if Parabolic(Eccentricity(f, u)) then
      mu / (u.c * u.c)
    else
      NonParabolicDivisor(Eccentricity(f, u), u);
      QuotientTimes(mu, EnergyDivisorOf(u), u.c * u.c - HodographSquare(u));
      mu / EnergyDivisorOf(u)
  }

  lemma QuotientTimes(mu: real, d: real, d2: real)
    requires d == d2 && d != 0.0
    ensures (mu / d) * d2 == mu
  {
  }

  /** i lies in [0, pi] and cos i == 1 - 2 (epsilon1^2 + epsilon2^2). */
  ghost predicate InclinationFrom(f: Functions, i: real, u: UnifiedState) {
    0.0 <= i <= f.pi && f.cos(i) == 1.0 - 2.0 * (Square(u.epsilon1) + Square(u.epsilon2))
  }

  /** The inclination acos(1 - 2 (epsilon1^2 + epsilon2^2)): for a unit quaternion, the angle
      in [0, pi] with that cosine. */
  function Inclination(f: Functions, u: UnifiedState): (i: real)
    requires Lawful(f)
    ensures UnitQuaternion(u) ==> InclinationFrom(f, i, u)
  {
    InclinationArgument(f, u);
    f.acos(1.0 - 2.0 * (u.epsilon1 * u.epsilon1 + u.epsilon2 * u.epsilon2))
  }

  lemma InclinationArgument(f: Functions, u: UnifiedState)
    requires Lawful(f)
    ensures UnitQuaternion(u) ==>
              InclinationFrom(f, f.acos(1.0 - 2.0 * (u.epsilon1 * u.epsilon1 + u.epsilon2 * u.epsilon2)), u)
  {
    if UnitQuaternion(u) {
      NonNegativeSquare(u.epsilon1);
      NonNegativeSquare(u.epsilon2);
      NonNegativeSquare(u.epsilon3);
      NonNegativeSquare(u.eta);
      AcosLaw(f, 1.0 - 2.0 * (u.epsilon1 * u.epsilon1 + u.epsilon2 * u.epsilon2));
    }
  }

  /** (epsilon1^2 + epsilon2^2) (eta^2 + epsilon3^2), the squared node norm. */
  function NodeSquare(u: UnifiedState): real {
    (u.epsilon1 * u.epsilon1 + u.epsilon2 * u.epsilon2) * (u.eta * u.eta + u.epsilon3 * u.epsilon3)
  }

  /** The node norm: the square root of `NodeSquare`, positive unless the orbit is
      pure-prograde or pure-retrograde. */
  function NodeNorm(f: Functions, u: UnifiedState): (n: real)
    requires Lawful(f)
    ensures !PurePrograde(u) && !PureRetrograde(u) ==> 0.0 < n && IsSquareRoot(n, NodeSquare(u))
  {
    NodeNormPositive(f, u);
    f.sqrt(NodeSquare(u))
  }

  lemma NodeNormPositive(f: Functions, u: UnifiedState)
    requires Lawful(f)
    ensures !PurePrograde(u) && !PureRetrograde(u) ==>
              0.0 < f.sqrt(NodeSquare(u)) && IsSquareRoot(f.sqrt(NodeSquare(u)), NodeSquare(u))
  {
    if !PurePrograde(u) && !PureRetrograde(u) {
      NotBothNegligible(u.epsilon1, u.epsilon2);
      NotBothNegligible(u.eta, u.epsilon3);
      PositiveProduct(u.epsilon1 * u.epsilon1 + u.epsilon2 * u.epsilon2,
                      u.eta * u.eta + u.epsilon3 * u.epsilon3, NodeSquare(u));
      SqrtLaw(f, NodeSquare(u));
      SquareRootSign(f.sqrt(NodeSquare(u)), NodeSquare(u));
    }
  }

  /** A coordinate of a point at distance r > 0 lies in [-r, r]. */
  lemma RatioBound(x: real, y: real, r: real)
    requires 0.0 < r
    requires x * x + y * y == r * r
    ensures -1.0 <= x / r <= 1.0
  {
    NonNegativeSquare(y);
    AbsAtMost(x, r);
    var t := x / r;
    assert t * r == x;
    assert 1.0 < t ==> r < t * r;
    assert t < -1.0 ==> t * r < -r;
  }

  lemma AbsAtMost(x: real, r: real)
    requires 0.0 < r
    requires x * x <= r * r
    ensures -r <= x <= r
  {
    assert r < x ==> r * r < x * x;
    assert x < -r ==> r * r < x * x;
  }

  /** Lagrange's identity in two dimensions, for the node cosine. */
  lemma NodeLagrange(e1: real, e2: real, e3: real, eta: real)
    ensures (e1 * eta - e2 * e3) * (e1 * eta - e2 * e3) + (e1 * e3 + e2 * eta) * (e1 * e3 + e2 * eta)
            == (e1 * e1 + e2 * e2) * (eta * eta + e3 * e3)
  {
  }

  /** raan is zero for a pure-prograde or pure-retrograde orbit, and otherwise the angle in
      [0, pi] whose cosine times the node norm is epsilon1 eta - epsilon2 epsilon3. */
  ghost predicate NodeFrom(f: Functions, raan: real, u: UnifiedState)
    requires Lawful(f)
  {
    && (PurePrograde(u) || PureRetrograde(u) ==> raan == 0.0)
    && (!PurePrograde(u) && !PureRetrograde(u) ==>
          0.0 <= raan <= f.pi && f.cos(raan) * NodeNorm(f, u) == u.epsilon1 * u.eta - u.epsilon2 * u.epsilon3)
  }

  /** The longitude of the ascending node, as `NodeFrom` states. The wrap loop never fires,
      acos being non-negative. */
  function LongitudeOfAscendingNode(f: Functions, u: UnifiedState): (raan: real)
    requires Lawful(f)
    ensures NodeFrom(f, raan, u)
  {
    if PurePrograde(u) || PureRetrograde(u) then
      0.0
    else
      var n := NodeNorm(f, u);
      var x := u.epsilon1 * u.eta - u.epsilon2 * u.epsilon3;
      NodeLagrange(u.epsilon1, u.epsilon2, u.epsilon3, u.eta);
      RatioBound(x, u.epsilon1 * u.epsilon3 + u.epsilon2 * u.eta, n);
      AcosLaw(f, x / n);
      assert (x / n) * n == x;
      WrapUp(f.acos(x / n), SingularityTolerance, 2.0 * f.pi)
  }

  /** The argument of periapsis w and the true anomaly nu, both at least -tolerance. For a
      circular orbit (R negligible) w is zero and nu is lambda - Omega wrapped. Otherwise nu is
      the angle in [0, pi] whose cosine times R is Rf2 cos lambda - Rf1 sin lambda, and w is
      lambda - Omega - nu wrapped. */
  ghost predicate AnglesFrom(f: Functions, u: UnifiedState, raan: real, w: real, nu: real)
    requires Lawful(f)
    requires !PureRetrograde(u)
  {
    && -SingularityTolerance <= w && -SingularityTolerance <= nu
    && (Abs(HodographR(f, u)) < SingularityTolerance ==>
          w == 0.0 && nu == WrapUp(Lambda(f, u) - raan, SingularityTolerance, 2.0 * f.pi))
    && (SingularityTolerance <= Abs(HodographR(f, u)) ==>
          && 0.0 <= nu <= f.pi
          && f.cos(nu) * HodographR(f, u) == u.rf2 * f.cos(Lambda(f, u)) - u.rf1 * f.sin(Lambda(f, u))
          && w == WrapUp(Lambda(f, u) - raan - nu, SingularityTolerance, 2.0 * f.pi))
  }

  /** The argument of periapsis and the true anomaly, as `AnglesFrom` states. */
  function PeriapsisAndAnomaly(f: Functions, u: UnifiedState, raan: real): (wn: (real, real))
    requires Lawful(f)
    requires !PureRetrograde(u)
    ensures AnglesFrom(f, u, raan, wn.0, wn.1)
  {
    var r := HodographR(f, u);
    var l := Lambda(f, u);
    if Abs(r) < SingularityTolerance then
      (0.0, WrapUp(l - raan, SingularityTolerance, 2.0 * f.pi))
    else
      var cs := LambdaCosSin(u);
      var v := HodographVelocity(u, cs.0, cs.1);
      RatioBound(v.1 - u.c, v.0, r);
      AcosLaw(f, (v.1 - u.c) / r);
      assert ((v.1 - u.c) / r) * r == v.1 - u.c;
      var nu := WrapUp(f.acos((v.1 - u.c) / r), SingularityTolerance, 2.0 * f.pi);
      (WrapUp(l - raan - nu, SingularityTolerance, 2.0 * f.pi), nu)
  }

  /** The conditions under which the source's divisions are by non-zero values: C is not
      zero, and for C < 0 the hodograph does not have R == -C (eccentricity -1). A
      pure-retrograde orbit divides by nothing. */
  predicate Convertible(u: UnifiedState) {
    !PureRetrograde(u) ==> u.c != 0.0 && (u.c < 0.0 ==> HodographSquare(u) != u.c * u.c)
  }

  /** Unified State Model -> Keplerian. A pure-retrograde state converts to all-zero
      elements (the source returns its zero-initialised vector there). Otherwise the
      eccentricity times C is R, the first element follows from the hodograph, a unit
      quaternion determines the inclination, and the node, the argument of periapsis and the
      true anomaly are those `NodeFrom` and `AnglesFrom` describe. */
  function UsmToKeplerian(f: Functions, u: UnifiedState, mu: real): (k: Keplerian)
    requires Lawful(f)
    requires Convertible(u)
    ensures PureRetrograde(u) ==> k == Keplerian(0.0, 0.0, 0.0, 0.0, 0.0, 0.0)
    ensures !PureRetrograde(u) ==> HodographEccentricity(k.eccentricity, u)
    ensures !PureRetrograde(u) ==> SizeFromHodograph(k.semiMajorAxis, k.eccentricity, u, mu)
    ensures !PureRetrograde(u) && UnitQuaternion(u) ==> InclinationFrom(f, k.inclination, u)
    ensures NodeFrom(f, k.longitudeOfAscendingNode, u)
    ensures !PureRetrograde(u) ==>
              AnglesFrom(f, u, k.longitudeOfAscendingNode, k.argumentOfPeriapsis, k.trueAnomaly)
  {
    if PureRetrograde(u) then
      Keplerian(0.0, 0.0, 0.0, 0.0, 0.0, 0.0)
    else
      var raan := LongitudeOfAscendingNode(f, u);
      var wn := PeriapsisAndAnomaly(f, u, raan);
      Keplerian(SizeElement(f, u, mu), Eccentricity(f, u), Inclination(f, u), wn.0, raan, wn.1)
  }

  // The two directions together.

  /** Keplerian -> Unified State Model -> Keplerian recovers the eccentricity, the
      inclination and the first element, for a positive mu / p and an orbit that is not
      pure-retrograde. */
  lemma UsmRoundTrip(f: Functions, k: Keplerian, mu: real)
    requires Lawful(f)
    requires 0.0 <= k.inclination <= f.pi
    requires 0.0 <= k.eccentricity
    requires SemiLatusRectum(k) != 0.0
    requires 0.0 < mu / SemiLatusRectum(k)
    requires !PureRetrograde(KeplerianToUsm(f, k, mu).value)
    ensures Convertible(KeplerianToUsm(f, k, mu).value)
    ensures var back := UsmToKeplerian(f, KeplerianToUsm(f, k, mu).value, mu);
            && back.eccentricity == k.eccentricity
            && back.inclination == k.inclination
            && back.semiMajorAxis == k.semiMajorAxis
  {
    HandOver(f, k, mu);
    var u := KeplerianToUsm(f, k, mu).value;
    RoundTripEccentricity(f, u, k.eccentricity);
    RoundTripInclination(f, u, k.inclination);
    RoundTripAxis(f, k, mu, u);
  }

  /** The node does not come back when it lies in (pi, 2 pi]: Unified State Model ->
      Keplerian takes it as a bare acos, in [0, pi], and its wrap loop never changes that. */
  lemma NodeNotRecovered(f: Functions, k: Keplerian, mu: real)
    requires Lawful(f)
    requires 0.0 <= k.inclination <= f.pi
    requires 0.0 <= k.eccentricity
    requires SemiLatusRectum(k) != 0.0
    requires 0.0 < mu / SemiLatusRectum(k)
    requires !PureRetrograde(KeplerianToUsm(f, k, mu).value)
    requires f.pi < k.longitudeOfAscendingNode
    ensures Convertible(KeplerianToUsm(f, k, mu).value)
    ensures UsmToKeplerian(f, KeplerianToUsm(f, k, mu).value, mu).longitudeOfAscendingNode
              != k.longitudeOfAscendingNode
  {
    HandOver(f, k, mu);
  }

  /** Likewise the true anomaly of a non-circular orbit (R at least the tolerance) does not
      come back when it lies in (pi, 2 pi]: it too is a bare acos. */
  lemma AnomalyNotRecovered(f: Functions, k: Keplerian, mu: real)
    requires Lawful(f)
    requires 0.0 <= k.inclination <= f.pi
    requires 0.0 <= k.eccentricity
    requires SemiLatusRectum(k) != 0.0
    requires 0.0 < mu / SemiLatusRectum(k)
    requires !PureRetrograde(KeplerianToUsm(f, k, mu).value)
    requires SingularityTolerance <= Abs(HodographR(f, KeplerianToUsm(f, k, mu).value))
    requires f.pi < k.trueAnomaly
    ensures Convertible(KeplerianToUsm(f, k, mu).value)
    ensures UsmToKeplerian(f, KeplerianToUsm(f, k, mu).value, mu).trueAnomaly != k.trueAnomaly
  {
    HandOver(f, k, mu);
  }

  /** What the first half of the round trip hands to the second: a state that is not
      pure-retrograde, with C == sqrt(mu / p) > 0, R == e C, a unit quaternion and the
      inclination encoded in it. */
  ghost predicate HandedOver(f: Functions, k: Keplerian, mu: real, u: UnifiedState)
    requires Lawful(f)
  {
    && 0.0 <= k.inclination <= f.pi
    && 0.0 <= k.eccentricity
    && SemiLatusRectum(k) != 0.0
    && 0.0 < mu / SemiLatusRectum(k)
    && 0.0 < u.c
    && IsSquareRoot(u.c, mu / SemiLatusRectum(k))
    && HodographSquare(u) == Square(k.eccentricity * u.c)
    && UnitQuaternion(u)
    && f.cos(k.inclination) == 1.0 - 2.0 * (Square(u.epsilon1) + Square(u.epsilon2))
    && !PureRetrograde(u)
    && Convertible(u)
  }

  lemma HandOver(f: Functions, k: Keplerian, mu: real)
    requires Lawful(f)
    requires 0.0 <= k.inclination <= f.pi
    requires 0.0 <= k.eccentricity
    requires SemiLatusRectum(k) != 0.0
    requires 0.0 < mu / SemiLatusRectum(k)
    requires !PureRetrograde(KeplerianToUsm(f, k, mu).value)
    ensures KeplerianToUsm(f, k, mu).Ok?
    ensures HandedOver(f, k, mu, KeplerianToUsm(f, k, mu).value)
  {
    var u := KeplerianToUsm(f, k, mu).value;
    SquareRootSign(u.c, mu / SemiLatusRectum(k));
  }

  /** R / C recovers an eccentricity e >= 0 with R^2 == (e C)^2, for C > 0. */
  lemma RoundTripEccentricity(f: Functions, u: UnifiedState, e: real)
    requires Lawful(f)
    requires 0.0 <= e && 0.0 < u.c
    requires HodographSquare(u) == Square(e * u.c)
    ensures Eccentricity(f, u) == e
  {
    EccentricityRecovered(Eccentricity(f, u), e, u);
  }

  /** acos(1 - 2 (epsilon1^2 + epsilon2^2)) recovers an inclination i in [0, pi] encoded as
      cos i == 1 - 2 (epsilon1^2 + epsilon2^2) in a unit quaternion. */
  lemma RoundTripInclination(f: Functions, u: UnifiedState, i: real)
    requires Lawful(f)
    requires 0.0 <= i <= f.pi
    requires UnitQuaternion(u)
    requires f.cos(i) == 1.0 - 2.0 * (Square(u.epsilon1) + Square(u.epsilon2))
    ensures Inclination(f, u) == i
  {
    SameCosine(f, Inclination(f, u), i);
  }

  /** The first element comes back from a hodograph built with C == sqrt(mu / p) > 0 and
      R == e C. */
  lemma RoundTripAxis(f: Functions, k: Keplerian, mu: real, u: UnifiedState)
    requires Lawful(f)
    requires 0.0 <= k.eccentricity
    requires SemiLatusRectum(k) != 0.0 && 0.0 < mu / SemiLatusRectum(k)
    requires 0.0 < u.c && IsSquareRoot(u.c, mu / SemiLatusRectum(k))
    requires HodographSquare(u) == Square(k.eccentricity * u.c)
    requires !PureRetrograde(u)
    ensures SizeElement(f, u, mu) == k.semiMajorAxis
  {
    RoundTripEccentricity(f, u, k.eccentricity);
    AxisRecovered(SizeElement(f, u, mu), Eccentricity(f, u), k, u, mu);
  }

  /** From e' C == R, R^2 == (e C)^2, e >= 0 and C > 0 follows e' == e. */
  lemma EccentricityRecovered(e2: real, e: real, u: UnifiedState)
    requires 0.0 <= e && 0.0 < u.c
    requires HodographSquare(u) == Square(e * u.c)
    requires HodographEccentricity(e2, u)
    ensures e2 == e
  {
    SquareRootOfSquare(e2 * u.c, e * u.c);
    CancelFactor(e2, e, u.c);
  }

  /** The first element comes back: mu / C^2 == p for a parabolic orbit and
      mu / (C^2 - R^2) == p / (1 - e^2) == a otherwise. */
  lemma AxisRecovered(a2: real, e2: real, k: Keplerian, u: UnifiedState, mu: real)
    requires SemiLatusRectum(k) != 0.0 && 0.0 < mu / SemiLatusRectum(k)
    requires IsSquareRoot(u.c, mu / SemiLatusRectum(k))
    requires HodographSquare(u) == Square(k.eccentricity * u.c)
    requires e2 == k.eccentricity
    requires SizeFromHodograph(a2, e2, u, mu)
    ensures a2 == k.semiMajorAxis
  {
    var a, e, p := k.semiMajorAxis, k.eccentricity, SemiLatusRectum(k);
    var c, rr := u.c, HodographSquare(u);
    assert (mu / p) * p == mu;
    assert c * c == mu / p;
    if Parabolic(e) {
      assert a * (c * c) == mu;
      CancelFactor(a2, a, c * c);
    } else {
      assert c * c - rr == (c * c) * (1.0 - e * e);
      assert a * (c * c - rr) == (a * (1.0 - e * e)) * (c * c);
      CancelFactor(a2, a, c * c - rr);
    }
  }
}
