/** Elapsed time against mean anomaly change, and mean motion against semi-major axis (the
    time part of orbitalElementConversions.h).

    The mean motion of an orbit with semi-major axis a around a body with gravitational
    parameter mu is n = sqrt(mu / |a|^3); a mean anomaly change is n times the elapsed time.
    Elliptical orbits have a > 0 and hyperbolic orbits a < 0, and each function refuses the
    sign that does not belong to it.

    Both directions are characterised by the same relation `MeanAnomalyOfTime`, which
    determines either quantity from the other; the round trips follow from that.
 */
module TimeRelations {
  import opened Elementary
  import opened Results

  /** m is the mean anomaly change over the elapsed time t on an orbit with |a|^3 == cube:
      m^2 cube == mu t^2, and m and t do not have opposite signs. */
  predicate MeanAnomalyOfTime(m: real, t: real, mu: real, cube: real) {
    0.0 <= m * t && m * m * cube == mu * (t * t)
  }

  /** Kepler's third law for a mean motion n >= 0: n^2 a^3 == mu. */
  predicate KeplerThirdLaw(n: real, a: real, mu: real) {
    0.0 <= n && n * n * (a * a * a) == mu
  }

  // Elapsed time to mean anomaly change.

  /** Elapsed time -> mean anomaly change on an elliptical orbit. Fails exactly for a
      negative semi-major axis. */
  function EllipticalTimeToMean(f: Functions, elapsedTime: real, mu: real, a: real): (r: Result<real>)
    requires Lawful(f)
    requires a != 0.0
    ensures r.Err? <==> a < 0.0
    ensures r.Err? ==> r.error == InvalidSemiMajorAxis
    ensures r.Ok? && 0.0 <= mu ==> MeanAnomalyOfTime(r.value, elapsedTime, mu, a * a * a)
  {
    if a < 0.0 then
      Err(InvalidSemiMajorAxis)
    else
      CubeSign(a);
      RateTimesTime(f, elapsedTime, mu, a * a * a);
      Ok(f.sqrt(mu / (a * a * a)) * elapsedTime)
  }

  /** Elapsed time -> mean anomaly change on a hyperbolic orbit. Fails exactly for a
      positive semi-major axis. */
  function HyperbolicTimeToMean(f: Functions, elapsedTime: real, mu: real, a: real): (r: Result<real>)
    requires Lawful(f)
    requires a != 0.0
    ensures r.Err? <==> 0.0 < a
    ensures r.Err? ==> r.error == InvalidSemiMajorAxis
    ensures r.Ok? && 0.0 <= mu ==> MeanAnomalyOfTime(r.value, elapsedTime, mu, -a * a * a)
  {
    if 0.0 < a then
      Err(InvalidSemiMajorAxis)
    else
      CubeSign(a);
      RateTimesTime(f, elapsedTime, mu, -a * a * a);
      Ok(f.sqrt(mu / (-a * a * a)) * elapsedTime)
  }

  /** sqrt(mu / cube) t is the mean anomaly change over t. */
  lemma RateTimesTime(f: Functions, t: real, mu: real, cube: real)
    requires Lawful(f)
    requires 0.0 < cube
    ensures 0.0 <= mu ==> MeanAnomalyOfTime(f.sqrt(mu / cube) * t, t, mu, cube)
  {
    if 0.0 <= mu {
      var x := mu / cube;
      assert x * cube == mu;
      PositiveFactorOrZero(x, cube, mu);
      SqrtLaw(f, x);
      ScaledByRoot(f.sqrt(x), x, t, mu, cube);
    }
  }

  /** A quotient of a non-negative number by a positive one is non-negative. */
  lemma PositiveFactorOrZero(x: real, d: real, p: real)
    requires 0.0 < d && 0.0 <= p
    requires x * d == p
    ensures 0.0 <= x
  {
    assert x < 0.0 ==> x * d < 0.0;
  }

  /** If n == sqrt(x) with x cube == mu, then n t is the mean anomaly change over t. */
  lemma ScaledByRoot(n: real, x: real, t: real, mu: real, cube: real)
    requires IsSquareRoot(n, x)
    requires x * cube == mu
    ensures MeanAnomalyOfTime(n * t, t, mu, cube)
  {
    assert (n * t) * t == n * (t * t);
    NonNegativeSquare(t);
    assert (n * t) * (n * t) * cube == (n * n) * cube * (t * t);
  }

  /** Elapsed time -> mean anomaly change for an orbit of either kind, chosen by the sign of
      the semi-major axis. A zero semi-major axis gives zero. */
  function ElapsedTimeToMeanAnomalyChange(f: Functions, elapsedTime: real, mu: real, a: real): (m: real)
    requires Lawful(f)
    ensures 0.0 < a ==> Ok(m) == EllipticalTimeToMean(f, elapsedTime, mu, a)
    ensures a < 0.0 ==> Ok(m) == HyperbolicTimeToMean(f, elapsedTime, mu, a)
    ensures a == 0.0 ==> m == 0.0
  {
    if 0.0 < a then
      EllipticalTimeToMean(f, elapsedTime, mu, a).value
    else if a < 0.0 then
      HyperbolicTimeToMean(f, elapsedTime, mu, a).value
    else
      0.0
  }

  // Mean anomaly change to elapsed time.

  /** Mean anomaly change -> elapsed time on an elliptical orbit. Fails exactly for a
      negative semi-major axis. */
  function EllipticalMeanToTime(f: Functions, meanAnomalyChange: real, mu: real, a: real): (r: Result<real>)
    requires Lawful(f)
    requires 0.0 <= a ==> mu != 0.0
    ensures r.Err? <==> a < 0.0
    ensures r.Err? ==> r.error == InvalidSemiMajorAxis
    ensures r.Ok? && 0.0 < mu ==> MeanAnomalyOfTime(meanAnomalyChange, r.value, mu, a * a * a)
  {
    if a < 0.0 then
      Err(InvalidSemiMajorAxis)
    else
      TimeOfMean(f, meanAnomalyChange, mu, a * a * a, meanAnomalyChange * f.sqrt(a * a * a / mu));
      Ok(meanAnomalyChange * f.sqrt(a * a * a / mu))
  }

  /** Mean anomaly change -> elapsed time on a hyperbolic orbit. Fails exactly for a
      positive semi-major axis. */
  function HyperbolicMeanToTime(f: Functions, meanAnomalyChange: real, mu: real, a: real): (r: Result<real>)
    requires Lawful(f)
    requires a <= 0.0 ==> mu != 0.0
    ensures r.Err? <==> 0.0 < a
    ensures r.Err? ==> r.error == InvalidSemiMajorAxis
    ensures r.Ok? && 0.0 < mu ==> MeanAnomalyOfTime(meanAnomalyChange, r.value, mu, -a * a * a)
  {
    if 0.0 < a then
      Err(InvalidSemiMajorAxis)
    else
      TimeOfMean(f, meanAnomalyChange, mu, -a * a * a, f.sqrt(-a * a * a / mu) * meanAnomalyChange);
      Ok(f.sqrt(-a * a * a / mu) * meanAnomalyChange)
  }

  /** m sqrt(cube / mu) is the elapsed time over which the mean anomaly changes by m. */
  lemma TimeOfMean(f: Functions, m: real, mu: real, cube: real, t: real)
    requires Lawful(f)
    requires mu != 0.0
    requires t == m * f.sqrt(cube / mu)
    ensures 0.0 < mu && 0.0 <= cube ==> MeanAnomalyOfTime(m, t, mu, cube)
  {
    if 0.0 < mu && 0.0 <= cube {
      var y := cube / mu;
      assert y * mu == cube;
      PositiveFactorOrZero(y, mu, cube);
      SqrtLaw(f, y);
      TimeByRoot(f.sqrt(y), y, m, mu, cube);
    }
  }

  /** If r == sqrt(y) with y mu == cube, then m r is the time over which the mean anomaly
      changes by m. */
  lemma TimeByRoot(r: real, y: real, m: real, mu: real, cube: real)
    requires IsSquareRoot(r, y)
    requires y * mu == cube
    ensures MeanAnomalyOfTime(m, m * r, mu, cube)
  {
    assert m * (m * r) == (m * m) * r;
    NonNegativeSquare(m);
    assert mu * ((m * r) * (m * r)) == (m * m) * ((r * r) * mu);
  }

  /** Mean anomaly change -> elapsed time for an orbit of either kind, chosen by the sign of
      the semi-major axis. A zero semi-major axis gives zero. */
  function MeanAnomalyChangeToElapsedTime(f: Functions, meanAnomalyChange: real, mu: real, a: real): (t: real)
    requires Lawful(f)
    requires a != 0.0 ==> mu != 0.0
    ensures 0.0 < a ==> Ok(t) == EllipticalMeanToTime(f, meanAnomalyChange, mu, a)
    ensures a < 0.0 ==> Ok(t) == HyperbolicMeanToTime(f, meanAnomalyChange, mu, a)
    ensures a == 0.0 ==> t == 0.0
  {
    if 0.0 < a then
      EllipticalMeanToTime(f, meanAnomalyChange, mu, a).value
    else if a < 0.0 then
      HyperbolicMeanToTime(f, meanAnomalyChange, mu, a).value
    else
      0.0
  }

  // The round trips.

  /** For mu > 0 and a non-zero semi-major axis, elapsed time -> mean anomaly change ->
      elapsed time is the identity. */
  lemma TimeRoundTrip(f: Functions, elapsedTime: real, mu: real, a: real)
    requires Lawful(f)
    requires 0.0 < mu && a != 0.0
    ensures MeanAnomalyChangeToElapsedTime(f, ElapsedTimeToMeanAnomalyChange(f, elapsedTime, mu, a), mu, a)
            == elapsedTime
  {
    var m := ElapsedTimeToMeanAnomalyChange(f, elapsedTime, mu, a);
    var t := MeanAnomalyChangeToElapsedTime(f, m, mu, a);
    var cube := if 0.0 < a then a * a * a else -a * a * a;
    assert MeanAnomalyOfTime(m, elapsedTime, mu, cube);
    assert MeanAnomalyOfTime(m, t, mu, cube);
    TimeDeterminedByMean(m, elapsedTime, t, mu, cube);
  }

  /** For mu > 0 and a non-zero semi-major axis, mean anomaly change -> elapsed time -> mean
      anomaly change is the identity. */
  lemma MeanRoundTrip(f: Functions, meanAnomalyChange: real, mu: real, a: real)
    requires Lawful(f)
    requires 0.0 < mu && a != 0.0
    ensures ElapsedTimeToMeanAnomalyChange(f, MeanAnomalyChangeToElapsedTime(f, meanAnomalyChange, mu, a), mu, a)
            == meanAnomalyChange
  {
    var t := MeanAnomalyChangeToElapsedTime(f, meanAnomalyChange, mu, a);
    var m := ElapsedTimeToMeanAnomalyChange(f, t, mu, a);
    var cube := if 0.0 < a then a * a * a else -a * a * a;
    CubeSign(a);
    assert MeanAnomalyOfTime(meanAnomalyChange, t, mu, cube);
    assert MeanAnomalyOfTime(m, t, mu, cube);
    MeanDeterminedByTime(meanAnomalyChange, m, t, mu, cube);
  }

  /** The relation determines the elapsed time from the mean anomaly change. */
  lemma TimeDeterminedByMean(m: real, t: real, t': real, mu: real, cube: real)
    requires 0.0 < mu
    requires MeanAnomalyOfTime(m, t, mu, cube) && MeanAnomalyOfTime(m, t', mu, cube)
    ensures t == t'
  {
    CancelFactor(t * t, t' * t', mu);
    SameSignRoots(t, t', m);
    if m == 0.0 {
      assert mu * (t * t) == 0.0 && mu * (t' * t') == 0.0;
      ZeroProduct(mu, t * t);
      ZeroProduct(mu, t' * t');
      ZeroProduct(t, t);
      ZeroProduct(t', t');
    }
  }

  /** The relation determines the mean anomaly change from the elapsed time on an orbit with
      cube > 0. */
  lemma MeanDeterminedByTime(m: real, m': real, t: real, mu: real, cube: real)
    requires 0.0 < cube
    requires MeanAnomalyOfTime(m, t, mu, cube) && MeanAnomalyOfTime(m', t, mu, cube)
    ensures m == m'
  {
    assert (m * m) * cube == (m' * m') * cube;
    CancelFactor(m * m, m' * m', cube);
    SameSignRoots(m, m', t);
    if t == 0.0 {
      assert (m * m) * cube == 0.0 && (m' * m') * cube == 0.0;
      ZeroProduct(m * m, cube);
      ZeroProduct(m' * m', cube);
      ZeroProduct(m, m);
      ZeroProduct(m', m');
    }
  }

  /** Two numbers with equal squares whose products with a non-zero w are both non-negative
      are equal. */
  lemma SameSignRoots(x: real, y: real, w: real)
    requires x * x == y * y
    requires 0.0 <= x * w && 0.0 <= y * w
    ensures w != 0.0 ==> x == y
  {
    assert (x - y) * (x + y) == 0.0;
    ZeroProduct(x - y, x + y);
    if w != 0.0 && x + y == 0.0 {
      assert y * w == -(x * w);
      ZeroProduct(x, w);
    }
  }

  // Mean motion and semi-major axis.

  /** Semi-major axis -> mean motion of an elliptical orbit. Fails exactly for a negative
      semi-major axis; otherwise the result obeys Kepler's third law. */
  function SemiMajorAxisToMeanMotion(f: Functions, a: real, mu: real): (r: Result<real>)
    requires Lawful(f)
    requires a != 0.0
    ensures r.Err? <==> a < 0.0
    ensures r.Err? ==> r.error == InvalidSemiMajorAxis
    ensures r.Ok? && 0.0 <= mu ==> KeplerThirdLaw(r.value, a, mu)
  {
    if a < 0.0 then
      Err(InvalidSemiMajorAxis)
    else
      CubeSign(a);
      MeanMotionLaw(f, a, mu, a * a * a);
      Ok(f.sqrt(mu / (a * a * a)))
  }

  /** sqrt(mu / a^3) obeys Kepler's third law for mu >= 0. */
  lemma MeanMotionLaw(f: Functions, a: real, mu: real, cube: real)
    requires Lawful(f)
    requires cube == a * a * a && 0.0 < cube
    ensures 0.0 <= mu ==> KeplerThirdLaw(f.sqrt(mu / cube), a, mu)
  {
    if 0.0 <= mu {
      var x := mu / cube;
      assert x * cube == mu;
      PositiveFactorOrZero(x, cube, mu);
      SqrtLaw(f, x);
    }
  }

  /** Mean motion -> semi-major axis of an elliptical orbit, (mu / n^2)^(1/3); the result
      obeys Kepler's third law. */
  function MeanMotionToSemiMajorAxis(f: Functions, n: real, mu: real): (a: real)
    requires Lawful(f)
    requires n != 0.0
    ensures n * n * (a * a * a) == mu
  {
    CbrtLaw(f, mu / (n * n));
    PositiveSquare(n);
    f.cbrt(mu / (n * n))
  }

  /** For mu > 0, a positive mean motion -> semi-major axis -> mean motion is the identity. */
  lemma MeanMotionRoundTrip(f: Functions, n: real, mu: real)
    requires Lawful(f)
    requires 0.0 < mu && 0.0 < n
    ensures var a := MeanMotionToSemiMajorAxis(f, n, mu);
            a != 0.0 && SemiMajorAxisToMeanMotion(f, a, mu) == Ok(n)
  {
    var a := MeanMotionToSemiMajorAxis(f, n, mu);
    PositiveSquare(n);
    PositiveCube(a, n * n, mu);
    var back := SemiMajorAxisToMeanMotion(f, a, mu);
    assert KeplerThirdLaw(back.value, a, mu);
    MeanMotionDetermined(back.value, n, a * a * a, mu);
  }

  /** For mu > 0, a positive semi-major axis -> mean motion -> semi-major axis is the
      identity. */
  lemma SemiMajorAxisRoundTrip(f: Functions, a: real, mu: real)
    requires Lawful(f)
    requires 0.0 < mu && 0.0 < a
    ensures SemiMajorAxisToMeanMotion(f, a, mu).Ok?
    ensures var n := SemiMajorAxisToMeanMotion(f, a, mu).value;
            n != 0.0 && MeanMotionToSemiMajorAxis(f, n, mu) == a
  {
    var n := SemiMajorAxisToMeanMotion(f, a, mu).value;
    assert KeplerThirdLaw(n, a, mu);
    NonZeroRoot(n, a * a * a, mu);
    var back := MeanMotionToSemiMajorAxis(f, n, mu);
    SemiMajorAxisDetermined(back, a, n * n, mu);
  }

  /** A number whose square scales to a non-zero value is not zero. */
  lemma NonZeroRoot(n: real, k: real, p: real)
    requires n * n * k == p && p != 0.0
    ensures n != 0.0
  {
  }

  /** A positive product of a cube and a positive number has a positive base. */
  lemma PositiveCube(a: real, k: real, p: real)
    requires 0.0 < k && 0.0 < p
    requires k * (a * a * a) == p
    ensures 0.0 < a
  {
    PositiveFactor(a * a * a, k, p);
    CubeSign(a);
  }

  /** Kepler's third law determines the non-negative mean motion from the semi-major axis. */
  lemma MeanMotionDetermined(n: real, n': real, cube: real, mu: real)
    requires 0.0 <= n && 0.0 <= n'
    requires n * n * cube == mu && n' * n' * cube == mu
    requires cube != 0.0
    ensures n == n'
  {
    CancelFactor(n * n, n' * n', cube);
    EqualSquares(n, n');
  }

  /** Kepler's third law determines the semi-major axis from a non-zero mean motion. */
  lemma SemiMajorAxisDetermined(a: real, a': real, k: real, mu: real)
    requires k != 0.0
    requires k * (a * a * a) == mu && k * (a' * a' * a') == mu
    ensures a == a'
  {
    assert (a * a * a) * k == (a' * a' * a') * k;
    CancelFactor(a * a * a, a' * a' * a', k);
    CubeRootUnique(a, a', a * a * a);
  }
}
