# Orbital element conversions, modelled in Dafny

A model of two stateless conversion components of the Tudat astrodynamics toolbox,
stated over Dafny's `real` numbers:

- `orbitalElementConversions.h`: Keplerian elements to and from Cartesian states, the true,
  eccentric, hyperbolic eccentric and mean anomalies, elapsed time to and from mean anomaly
  change, and mean motion to and from semi-major axis;
- `unifiedStateModelElementConversions.cpp`: Keplerian elements to and from the Unified State
  Model. That model uses the velocity hodograph (C, Rf1, Rf2) and the attitude quaternion
  (epsilon1, epsilon2, epsilon3, eta).

The transcendental functions (`sin`, `cos`, `sinh`, `cosh`, `acos`, `atan2`, `atanh`,
`sqrt`, `cbrt`) and pi are fields of `Elementary.Functions`. Nothing is known about them
except the laws in `Elementary.Lawful`, and each of those laws holds of the true real
functions:

- sin² + cos² = 1 and cosh² − sinh² = 1;
- the range of acos, acos(1) = 0 and acos(−1) = pi, and acos of cos on [0, pi];
- the half-angle and reflection formulas;
- the range of atan2, and atan2 on the unit circle;
- sinh(atanh t) = t cosh(atanh t);
- the square root and the cube root.

Thrown exceptions become `Results.Result` values. Tolerances are named constants:

| constant | value | used by | source |
|---|---|---|---|
| `Elementary.MachineEpsilon` | 2^-52 | the parabolic test of Keplerian → Cartesian and of the anomaly wrappers | orbitalElementConversions.h:130 |
| `Cartesian.Tolerance` | 20 · 2^-52 | every special case of Cartesian → Keplerian | orbitalElementConversions.h:261 |
| `Usm.SingularityTolerance` | 10^-15 | both Unified State Model directions | unifiedStateModelElementConversions.cpp:69, :153 |

Modules follow the source. Their dependency order is:

1. `Results` and `Elementary`;
2. `Vectors` (the parts of Eigen the conversions use) and `Elements` (the element sets);
3. `Angles` (angle recovery by acos with a quadrant flip, and the "add 2 pi while below
   −tolerance" loop);
4. `Anomalies`, `TimeRelations`, `Cartesian` and `Usm`.

Behaviour of the code that the model keeps, where the documentation says otherwise or says
nothing:

- **Pure-retrograde state.** Unified State Model → Keplerian returns the all-zero element
  vector for a pure-retrograde state (|epsilon3| and |eta| below tolerance). It prints a
  message and does not fail.
- **Longitude of the ascending node (USM → Keplerian).** It is a bare `acos`, so it lies in
  [0, pi]. Its "add 2 pi" loop never changes it. A node in (pi, 2 pi] therefore never comes
  back through Keplerian → USM → Keplerian (`Usm.NodeNotRecovered`).
- **True anomaly (USM → Keplerian).** For a non-circular orbit (R at least the tolerance) it
  is also a bare `acos`, in [0, pi], and its loop does not change it either. A true anomaly
  in (pi, 2 pi] of such an orbit never comes back (`Usm.AnomalyNotRecovered`).
- **Normalizing the zero vector.** `normalized()` of the zero vector is taken to be the zero
  vector, as Eigen 3.3 and later define it; Eigen 3.2 divides by the zero norm and gives
  NaN. This decides the result for an angular momentum along −z: the inclination is exactly
  pi, which the equatorial test |i| < 20 eps does not catch, the node vector is zero, and the
  longitude of the ascending node is acos(0), a quarter turn (`Cartesian.RetrogradeEquatorialNode`).
  The argument of periapsis of such a non-circular orbit then has cosine ê · 0 = 0.
- **Anomaly converters.** They return the `atan2` or `atanh` value, not an angle normalised
  to [0, 2 pi).
- **Parabolic tolerances.** The first element of Cartesian → Keplerian is the semi-latus
  rectum when |e − 1| < 20 machine epsilons. The function's documentation says 1e-15.
- **Two parabolic bands.** Keplerian → Cartesian uses a band of one machine epsilon, and
  Cartesian → Keplerian uses twenty. For eps < |e − 1| < 20 eps, the first element
  therefore does not survive the round trip (`Cartesian.SizeElementBand`).
- **Hyperbolic asymptote.** True → hyperbolic eccentric anomaly passes t, with
  t (e + cos nu) = sqrt(e² − 1) sin nu, to `boost::math::atanh`. Under Boost's default
  error policy that call throws an overflow error for t < −1 + eps or t > 1 − eps, not only
  at ±1. Since 1 − t² = (1 + e cos nu)² / (e + cos nu)², this is the band
  (1 + e cos nu)² < (1 − (1 − eps)²) (e + cos nu)² around the asymptote 1 + e cos nu = 0
  (`Anomalies.AtanhOverflowBand`, `Anomalies.OverflowNearAsymptote`); for e = 2 it contains, for example, cos nu = −1/2 + 2^-30. The model returns `Err(AtanhOverflow)` on the whole band.

## Model

| member | source | states |
|---|---|---|
| Anomalies.EllipticalFromTrue | Tudat/Astrodynamics/BasicAstrodynamics/orbitalElementConversions.h:478-485 | (sin E, cos E) computed from nu lies on the unit circle, because (1 − e²) sin²nu + (e + cos nu)² = (1 + e cos nu)²; it satisfies sin E (1 + e cos nu) = sqrt(1 − e²) sin nu and cos E (1 + e cos nu) = e + cos nu |
| Anomalies.TrueFromElliptical | Tudat/Astrodynamics/BasicAstrodynamics/orbitalElementConversions.h:618-627 | (sin nu, cos nu) computed from E lies on the unit circle, because (1 − e²) sin²E + (cos E − e)² = (1 − e cos E)², and satisfies the inverse relations |
| Anomalies.TrueToEllipticalEccentric | Tudat/Astrodynamics/BasicAstrodynamics/orbitalElementConversions.h:460-490 | fails with "eccentricity invalid" exactly when e < 0 or e ≥ 1; otherwise returns an angle in [−pi, pi] whose sine and cosine are the eccentric anomaly's for nu |
| Anomalies.EllipticalEccentricToTrue | Tudat/Astrodynamics/BasicAstrodynamics/orbitalElementConversions.h:600-632 | fails exactly when e < 0 or e ≥ 1; otherwise returns an angle in [−pi, pi] whose sine and cosine are the true anomaly's for E |
| Anomalies.EllipticalRoundTrip | Tudat/Astrodynamics/BasicAstrodynamics/orbitalElementConversions.h:460-632 | for 0 ≤ e < 1, true → eccentric → true anomaly gives an angle with the same sine and cosine as the input |
| Anomalies.EllipticalReverseRoundTrip | Tudat/Astrodynamics/BasicAstrodynamics/orbitalElementConversions.h:460-632 | for 0 ≤ e < 1, eccentric → true → eccentric anomaly gives an angle with the same sine and cosine as the input |
| Anomalies.HyperbolicTanh | Tudat/Astrodynamics/BasicAstrodynamics/orbitalElementConversions.h:516-530 | the ratio of the two quotients handed to atanh is the t with t (e + cos nu) = sqrt(e² − 1) sin nu |
| Anomalies.AtanhArgumentRange | Tudat/Astrodynamics/BasicAstrodynamics/orbitalElementConversions.h:516-530 | the atanh argument lies in [−1, 1], and is ±1 exactly when 1 + e cos nu = 0 |
| Anomalies.AtanhOverflowBand | Tudat/Astrodynamics/BasicAstrodynamics/orbitalElementConversions.h:516-530 | the atanh argument is within eps of ±1 exactly when (1 + e cos nu)² < (1 − (1 − eps)²)(e + cos nu)², which includes the asymptote 1 + e cos nu = 0 |
| Anomalies.TrueToHyperbolicEccentric | Tudat/Astrodynamics/BasicAstrodynamics/orbitalElementConversions.h:501-532 | fails with "eccentricity invalid" exactly when e ≤ 1, and with an atanh overflow exactly when the atanh argument t, with t (e + cos nu) = sqrt(e² − 1) sin nu, lies below −1 + eps or above 1 − eps, which includes the asymptote 1 + e cos nu = 0; for a true anomaly on the hyperbola (1 + e cos nu > 0) any result it returns is the H with sinh H (1 + e cos nu) = sqrt(e² − 1) sin nu and cosh H (1 + e cos nu) = e + cos nu |
| Anomalies.OverflowNearAsymptote | Tudat/Astrodynamics/BasicAstrodynamics/orbitalElementConversions.h:516-530 | for e > 1 the conversion fails with an atanh overflow exactly when (1 + e cos nu)² < (1 − (1 − eps)²)(e + cos nu)² |
| Anomalies.HyperbolicFromTrue | Tudat/Astrodynamics/BasicAstrodynamics/orbitalElementConversions.h:516-530 | on the hyperbola the atanh argument lies strictly inside (−1, 1) and atanh of it is the hyperbolic anomaly of nu |
| Anomalies.TrueFromHyperbolic | Tudat/Astrodynamics/BasicAstrodynamics/orbitalElementConversions.h:659-669 | (sin nu, cos nu) computed from H lies on the unit circle, because (e² − 1) sinh²H + (e − cosh H)² = (e cosh H − 1)², and satisfies the inverse relations |
| Anomalies.HyperbolicEccentricToTrue | Tudat/Astrodynamics/BasicAstrodynamics/orbitalElementConversions.h:643-675 | fails exactly when e ≤ 1; otherwise returns an angle in [−pi, pi] that is the true anomaly of H |
| Anomalies.HyperbolicRoundTrip | Tudat/Astrodynamics/BasicAstrodynamics/orbitalElementConversions.h:501-675 | for e > 1 and a true anomaly on the hyperbola, the conversion succeeds exactly when its atanh argument does not overflow (outside the band of `Anomalies.OverflowNearAsymptote`), and then true → hyperbolic → true anomaly gives an angle with the same sine and cosine as the input |
| Anomalies.HyperbolicValuesRoundTrip | Tudat/Astrodynamics/BasicAstrodynamics/orbitalElementConversions.h:516-669 | the hyperbolic anomaly of (sin nu, cos nu) is mapped back to exactly (sin nu, cos nu) |
| Anomalies.TrueToEccentric | Tudat/Astrodynamics/BasicAstrodynamics/orbitalElementConversions.h:548-589 | fails for e < 0 ("eccentricity invalid") and for \|e − 1\| < eps ("parabolic not implemented"); otherwise equals the elliptical converter for e < 1 and the hyperbolic one for e > 1, including its atanh overflow band; the hyperbolic converter's non-zero divisor is required only when e > 1 outside the parabolic band |
| Anomalies.EccentricToTrue | Tudat/Astrodynamics/BasicAstrodynamics/orbitalElementConversions.h:692-733 | fails exactly for e < 0 and for \|e − 1\| < eps, with those two errors; otherwise equals the elliptical converter for e < 1 and the hyperbolic one for e > 1 |
| Anomalies.EllipticalEccentricToMean | Tudat/Astrodynamics/BasicAstrodynamics/orbitalElementConversions.h:745-750 | Kepler's equation: (E − M)² = e² (1 − cos²E), \|E − M\| ≤ e for e ≥ 0, and for e ≥ 0 the sign of E − M is that of sin E (M ≤ E when sin E ≥ 0, M ≥ E when sin E ≤ 0), which together fix M = E − e sin E |
| Anomalies.HyperbolicEccentricToMean | Tudat/Astrodynamics/BasicAstrodynamics/orbitalElementConversions.h:762-767 | the hyperbolic Kepler equation: (M + H)² = e² (cosh²H − 1), and for e ≥ 0 (M + H) sinh H ≥ 0, so M + H has the sign of sinh H and M = e sinh H − H |
| Anomalies.EccentricToMean | Tudat/Astrodynamics/BasicAstrodynamics/orbitalElementConversions.h:783-826 | fails exactly for e < 0 and for \|e − 1\| < eps, with those two errors; otherwise gives the elliptical mean anomaly for e < 1 and the hyperbolic one for e > 1 |
| TimeRelations.EllipticalTimeToMean | Tudat/Astrodynamics/BasicAstrodynamics/orbitalElementConversions.h:839-857 | fails with "semi-major axis invalid" exactly when a < 0; otherwise, for mu ≥ 0, the change M satisfies M² a³ = mu t², and M and t do not have opposite signs |
| TimeRelations.HyperbolicTimeToMean | Tudat/Astrodynamics/BasicAstrodynamics/orbitalElementConversions.h:871-889 | fails exactly when a > 0; otherwise the same relation with −a³ |
| TimeRelations.ElapsedTimeToMeanAnomalyChange | Tudat/Astrodynamics/BasicAstrodynamics/orbitalElementConversions.h:905-928 | dispatches to the elliptical function for a > 0 and the hyperbolic one for a < 0 (never failing), and returns 0 for a = 0 |
| TimeRelations.EllipticalMeanToTime | Tudat/Astrodynamics/BasicAstrodynamics/orbitalElementConversions.h:942-962 | fails exactly when a < 0; otherwise, for mu > 0, the elapsed time t satisfies M² a³ = mu t², with M and t not of opposite signs |
| TimeRelations.HyperbolicMeanToTime | Tudat/Astrodynamics/BasicAstrodynamics/orbitalElementConversions.h:975-994 | fails exactly when a > 0; otherwise the same relation with −a³ |
| TimeRelations.MeanAnomalyChangeToElapsedTime | Tudat/Astrodynamics/BasicAstrodynamics/orbitalElementConversions.h:1010-1033 | dispatches to the elliptical function for a > 0 and the hyperbolic one for a < 0, and returns 0 for a = 0 |
| TimeRelations.TimeRoundTrip | Tudat/Astrodynamics/BasicAstrodynamics/orbitalElementConversions.h:905-1033 | for mu > 0 and a ≠ 0, elapsed time → mean anomaly change → elapsed time is the identity |
| TimeRelations.MeanRoundTrip | Tudat/Astrodynamics/BasicAstrodynamics/orbitalElementConversions.h:905-1033 | for mu > 0 and a ≠ 0, mean anomaly change → elapsed time → mean anomaly change is the identity |
| TimeRelations.TimeDeterminedByMean | Tudat/Astrodynamics/BasicAstrodynamics/orbitalElementConversions.h:942-994 | for mu > 0, the relation between mean anomaly change and time has at most one time for each change |
| TimeRelations.MeanDeterminedByTime | Tudat/Astrodynamics/BasicAstrodynamics/orbitalElementConversions.h:839-889 | for a³ ≠ 0, the relation has at most one mean anomaly change for each time |
| TimeRelations.SemiMajorAxisToMeanMotion | Tudat/Astrodynamics/BasicAstrodynamics/orbitalElementConversions.h:1059-1075 | fails exactly when a < 0; otherwise, for mu ≥ 0, the mean motion n ≥ 0 obeys Kepler's third law n² a³ = mu |
| TimeRelations.MeanMotionToSemiMajorAxis | Tudat/Astrodynamics/BasicAstrodynamics/orbitalElementConversions.h:1043-1049 | the semi-major axis obeys Kepler's third law n² a³ = mu |
| TimeRelations.MeanMotionRoundTrip | Tudat/Astrodynamics/BasicAstrodynamics/orbitalElementConversions.h:1043-1075 | for mu > 0, a positive mean motion → semi-major axis → mean motion is the identity |
| TimeRelations.SemiMajorAxisRoundTrip | Tudat/Astrodynamics/BasicAstrodynamics/orbitalElementConversions.h:1043-1075 | for mu > 0, a positive semi-major axis → mean motion → semi-major axis is the identity |
| Angles.AngleFromCosine | Tudat/Astrodynamics/BasicAstrodynamics/orbitalElementConversions.h:328-339 | acos with the quadrant flip gives an angle in [0, 2 pi] with the given cosine, whose sine is ≤ 0 when the quadrant condition is negative and ≥ 0 otherwise |
| Angles.WrapTurns | Tudat/Astrodynamics/BasicAstrodynamics/unifiedStateModelElementConversions.cpp:251-255 | the loop stops after finitely many turns k: x + k · 2 pi ≥ −tol, k is 0 exactly when x ≥ −tol, and one turn fewer would still be below −tol |
| Angles.WrapUp | Tudat/Astrodynamics/BasicAstrodynamics/unifiedStateModelElementConversions.cpp:251-255 | the wrapped value is ≥ −tol, equals the input plus a whole number of turns, is the input itself when that is already ≥ −tol, and is below one turn − tol otherwise |
| Angles.WrapUpLoop | Tudat/Astrodynamics/BasicAstrodynamics/unifiedStateModelElementConversions.cpp:251-255 | the "add 2 pi while below −tol" loop terminates and computes `WrapUp` |
| Cartesian.SemiLatusRectum | Tudat/Astrodynamics/BasicAstrodynamics/orbitalElementConversions.h:154-167 | p is the first element when \|e − 1\| ≤ eps, and otherwise p = a (1 − e²) |
| Cartesian.OrbitalFrame | Tudat/Astrodynamics/BasicAstrodynamics/orbitalElementConversions.h:188-201 | the two columns of the perifocal-to-inertial matrix are orthonormal |
| Cartesian.PerifocalPosition | Tudat/Astrodynamics/BasicAstrodynamics/orbitalElementConversions.h:171-176 | the perifocal position satisfies x (1 + e cos nu) = p cos nu and y (1 + e cos nu) = p sin nu, and has squared radius (p / (1 + e cos nu))² |
| Cartesian.PerifocalMomentum | Tudat/Astrodynamics/BasicAstrodynamics/orbitalElementConversions.h:171-182 | the perifocal position and velocity have angular momentum sqrt(mu/p) · p, whose square is mu p for p > 0 |
| Cartesian.KeplerianToCartesian | Tudat/Astrodynamics/BasicAstrodynamics/orbitalElementConversions.h:119-216 | the position has squared norm (p / (1 + e cos nu))², and for p > 0 and mu ≥ 0 the squared angular momentum \|r × v\|² is mu p |
| Cartesian.ConicState | Tudat/Astrodynamics/BasicAstrodynamics/orbitalElementConversions.h:206-212 | rotating the perifocal state by an orthonormal frame keeps the radius and the squared angular momentum mu p |
| Cartesian.EccentricityVector | Tudat/Astrodynamics/BasicAstrodynamics/orbitalElementConversions.h:283-285 | the eccentricity vector v × h / mu − r / \|r\| is orthogonal to the angular momentum h |
| Cartesian.Eccentricity | Tudat/Astrodynamics/BasicAstrodynamics/orbitalElementConversions.h:288 | the eccentricity is the norm of the eccentricity vector |
| Cartesian.SizeElement | Tudat/Astrodynamics/BasicAstrodynamics/orbitalElementConversions.h:293-306 | the first element is p = \|h\|²/mu when \|e − 1\| < 20 eps, and otherwise the a with a (1 − e²) = p |
| Cartesian.Inclination | Tudat/Astrodynamics/BasicAstrodynamics/orbitalElementConversions.h:309-310 | the inclination lies in [0, pi] and cos i · \|h\| = h_z |
| Cartesian.NodeVector | Tudat/Astrodynamics/BasicAstrodynamics/orbitalElementConversions.h:278-280 | the node vector lies in the equatorial plane and has norm at most one |
| Cartesian.AscendingNode | Tudat/Astrodynamics/BasicAstrodynamics/orbitalElementConversions.h:318-325 | for an equatorial orbit (i < 20 eps) the node vector is the x axis |
| Cartesian.LongitudeOfAscendingNode | Tudat/Astrodynamics/BasicAstrodynamics/orbitalElementConversions.h:328-339 | the node lies in [0, 2 pi], has cosine node_x, and its sine has the sign the test on node_y selects; it is 0 for the x axis |
| Cartesian.ClampedAngle | Tudat/Astrodynamics/BasicAstrodynamics/orbitalElementConversions.h:377-402 | the argument of periapsis lies in [0, 2 pi]; a cosine below −1 gives pi, above 1 gives 2 pi when the quadrant value is negative and 0 otherwise, and otherwise it is the flipped acos |
| Cartesian.SnapCosine | Tudat/Astrodynamics/BasicAstrodynamics/orbitalElementConversions.h:411-429 | the true anomaly's cosine is snapped to exactly 1, −1 or 0 when within tolerance, moves by less than the tolerance, and stays in [−1, 1] |
| Cartesian.Derive | Tudat/Astrodynamics/BasicAstrodynamics/orbitalElementConversions.h:271-325 | the derived angular momentum is r × v and non-zero, e is the norm of the eccentricity vector, i is in [0, pi] with cos i · \|h\| = h_z, and the node vector is equatorial with norm ≤ 1 and is the x axis for an equatorial orbit |
| Cartesian.ArgumentOfPeriapsis | Tudat/Astrodynamics/BasicAstrodynamics/orbitalElementConversions.h:347-403 | the argument of periapsis lies in [0, 2 pi] and is 0 for a circular orbit (e < 20 eps); otherwise, for a node vector of norm ≤ 1, its cosine is ê · n and its sine is ≤ 0 exactly when the quadrant test (e_z, or e_y for an equatorial orbit) is negative, ≥ 0 otherwise |
| Cartesian.TrueAnomalyCosine | Tudat/Astrodynamics/BasicAstrodynamics/orbitalElementConversions.h:406-407 | the cosine between the position and the periapsis direction lies in [−1, 1], so acos is defined there |
| Cartesian.CartesianToKeplerian | Tudat/Astrodynamics/BasicAstrodynamics/orbitalElementConversions.h:256-447 | e is the norm of the eccentricity vector; the first element is p or a per the 20 eps band; i is in [0, pi] with cos i · \|h\| = h_z; node, argument of periapsis and true anomaly are in [0, 2 pi]; the node has cosine node_x and a sine of the sign node_y selects, and is 0 for an equatorial orbit; the argument of periapsis is 0 for a circular orbit and otherwise has cosine ê · n with the e_z / e_y quadrant; the true anomaly has the snapped cosine with the r · v (r_y, r_z when circular) quadrant, within tolerance of the computed cosine |
| Cartesian.SemiLatusRectumRecovered | Tudat/Astrodynamics/BasicAstrodynamics/orbitalElementConversions.h:274-275 | for p > 0 and mu > 0, \|h\|²/mu of the Cartesian state Keplerian → Cartesian produces is the p it used |
| Cartesian.SizeElementRoundTrip | Tudat/Astrodynamics/BasicAstrodynamics/orbitalElementConversions.h:293-306 | outside the band eps < \|e − 1\| < 20 eps, the first element comes back unchanged through the semi-latus rectum |
| Cartesian.TrueAnomaly | Tudat/Astrodynamics/BasicAstrodynamics/orbitalElementConversions.h:404-444 | the true anomaly lies in [0, 2 pi], has the snapped cosine of the position–periapsis cosine, has a sine whose sign follows r · v (or r_y, r_z for a circular orbit), and its cosine is within tolerance of the unsnapped cosine |
| Cartesian.SnappedAngle | Tudat/Astrodynamics/BasicAstrodynamics/orbitalElementConversions.h:411-444 | snapping a cosine in [−1, 1] and taking acos with the quadrant flip gives an angle in [0, 2 pi] with the snapped cosine, whose cosine is within tolerance of the unsnapped one |
| Cartesian.ConicEccentricityVector | Tudat/Astrodynamics/BasicAstrodynamics/orbitalElementConversions.h:283-285 | for an orthonormal frame (P, Q), p > 0, mu > 0, n = sqrt(mu / p) and 1 + e cos nu > 0, the eccentricity vector of the rotated perifocal state is e P |
| Cartesian.EccentricityVectorRecovered | Tudat/Astrodynamics/BasicAstrodynamics/orbitalElementConversions.h:283-285 | for p > 0, mu > 0 and 1 + e cos nu > 0, the eccentricity vector of the Keplerian → Cartesian state is e times the frame's periapsis direction |
| Cartesian.MomentumRecovered | Tudat/Astrodynamics/BasicAstrodynamics/orbitalElementConversions.h:271-272 | the angular momentum r × v of the Keplerian → Cartesian state is sqrt(mu / p) p times the frame normal P × Q |
| Cartesian.FrameNormal | Tudat/Astrodynamics/BasicAstrodynamics/orbitalElementConversions.h:188-201 | the normal P × Q of the perifocal-to-inertial frame is a unit vector whose z component is cos i |
| Cartesian.EccentricityRoundTrip | Tudat/Astrodynamics/BasicAstrodynamics/orbitalElementConversions.h:283-288 | for e ≥ 0, p > 0, mu > 0 and 1 + e cos nu > 0, the eccentricity Cartesian → Keplerian reads off the Keplerian → Cartesian state is e |
| Cartesian.InclinationRoundTrip | Tudat/Astrodynamics/BasicAstrodynamics/orbitalElementConversions.h:309-310 | for 0 ≤ i ≤ pi, p > 0 and mu > 0, the angular momentum of the Keplerian → Cartesian state is non-zero and acos(h_z / \|h\|) returns i |
| Cartesian.CartesianRoundTrip | Tudat/Astrodynamics/BasicAstrodynamics/orbitalElementConversions.h:119-447 | for e ≥ 0, 0 ≤ i ≤ pi, p > 0, mu > 0 and 1 + e cos nu > 0, Keplerian → Cartesian → Keplerian returns the same eccentricity and inclination, and the same first element outside the band eps < \|e − 1\| < 20 eps |
| Cartesian.RetrogradeEquatorialNode | Tudat/Astrodynamics/BasicAstrodynamics/orbitalElementConversions.h:278-339 | for h along −z the inclination is pi and not equatorial, the node vector is zero, and the longitude of the ascending node is acos(0) |
| Cartesian.SizeElementBand | Tudat/Astrodynamics/BasicAstrodynamics/orbitalElementConversions.h:154-167 | inside that band the first element does not come back: with a = 1 and e = 1 + 2 eps it is read as a semi-major axis one way and returned as a semi-latus rectum the other |
| Usm.Quaternion | Tudat/Astrodynamics/BasicAstrodynamics/unifiedStateModelElementConversions.cpp:113-134 | the quaternion is a unit quaternion, and cos i = 1 − 2 (epsilon1² + epsilon2²) |
| Usm.Hodograph | Tudat/Astrodynamics/BasicAstrodynamics/unifiedStateModelElementConversions.cpp:86-110 | C = sqrt(mu / p) where mu / p ≥ 0 (p from the 1e-15 parabolic test), and Rf1² + Rf2² = (e C)² |
| Usm.KeplerianToUsm | Tudat/Astrodynamics/BasicAstrodynamics/unifiedStateModelElementConversions.cpp:58-139 | fails with "inclination out of range" exactly when i < 0 or i > pi; otherwise C = sqrt(mu / p), Rf1² + Rf2² = (e C)², a unit quaternion, and cos i = 1 − 2 (epsilon1² + epsilon2²) |
| Usm.LambdaCosSin | Tudat/Astrodynamics/BasicAstrodynamics/unifiedStateModelElementConversions.cpp:170-184 | when epsilon3 and eta are not both negligible, (cos lambda, sin lambda) lies on the unit circle, because (eta² − epsilon3²)² + (2 epsilon3 eta)² = (epsilon3² + eta²)² |
| Usm.Lambda | Tudat/Astrodynamics/BasicAstrodynamics/unifiedStateModelElementConversions.cpp:185 | lambda lies in [−pi, pi] and has that cosine and sine |
| Usm.HodographVelocity | Tudat/Astrodynamics/BasicAstrodynamics/unifiedStateModelElementConversions.cpp:189-193 | ve1² + (ve2 − C)² = Rf1² + Rf2²: the rotation by lambda keeps the hodograph radius |
| Usm.HodographR | Tudat/Astrodynamics/BasicAstrodynamics/unifiedStateModelElementConversions.cpp:196-199 | R is the non-negative square root of Rf1² + Rf2² |
| Usm.Eccentricity | Tudat/Astrodynamics/BasicAstrodynamics/unifiedStateModelElementConversions.cpp:202-203 | e C = R |
| Usm.EnergyDivisorOf | Tudat/Astrodynamics/BasicAstrodynamics/unifiedStateModelElementConversions.cpp:213-216 | the divisor 2 C ve2 − (ve1² + ve2²) equals C² − R² |
| Usm.SizeElement | Tudat/Astrodynamics/BasicAstrodynamics/unifiedStateModelElementConversions.cpp:206-217 | within 1e-15 of parabolic the first element a has a C² = mu (the semi-latus rectum); otherwise a (C² − R²) = mu (vis-viva) |
| Usm.Inclination | Tudat/Astrodynamics/BasicAstrodynamics/unifiedStateModelElementConversions.cpp:220-224 | for a unit quaternion, i is the angle in [0, pi] with cos i = 1 − 2 (epsilon1² + epsilon2²) |
| Usm.NodeNorm | Tudat/Astrodynamics/BasicAstrodynamics/unifiedStateModelElementConversions.cpp:241-248 | unless the orbit is pure-prograde or pure-retrograde, the divisor is positive and is the square root of (epsilon1² + epsilon2²)(eta² + epsilon3²) |
| Usm.LongitudeOfAscendingNode | Tudat/Astrodynamics/BasicAstrodynamics/unifiedStateModelElementConversions.cpp:227-256 | 0 for a pure-prograde or pure-retrograde orbit; otherwise an angle in [0, pi], left unchanged by the wrap loop, whose cosine times the node norm is epsilon1 eta − epsilon2 epsilon3 |
| Usm.PeriapsisAndAnomaly | Tudat/Astrodynamics/BasicAstrodynamics/unifiedStateModelElementConversions.cpp:259-295 | both angles are ≥ −tol; for R < tol, w = 0 and nu is lambda − Omega wrapped; otherwise nu is in [0, pi] with cos nu · R = Rf2 cos lambda − Rf1 sin lambda, and w is lambda − Omega − nu wrapped |
| Usm.UsmToKeplerian | Tudat/Astrodynamics/BasicAstrodynamics/unifiedStateModelElementConversions.cpp:142-299 | a pure-retrograde state gives all-zero elements without failing; otherwise e C = R, the first element follows from the hodograph, a unit quaternion gives the inclination, and node, argument of periapsis and true anomaly are as in the two rows above |
| Usm.UsmRoundTrip | Tudat/Astrodynamics/BasicAstrodynamics/unifiedStateModelElementConversions.cpp:86-224 | for 0 ≤ i ≤ pi, e ≥ 0, mu / p > 0 and a result that is not pure-retrograde, Keplerian → USM → Keplerian returns the same eccentricity, inclination and first element |
| Usm.NodeNotRecovered | Tudat/Astrodynamics/BasicAstrodynamics/unifiedStateModelElementConversions.cpp:236-255 | under the round trip's conditions, a longitude of the ascending node above pi does not come back, the bare acos being at most pi |
| Usm.AnomalyNotRecovered | Tudat/Astrodynamics/BasicAstrodynamics/unifiedStateModelElementConversions.cpp:272-282 | under the round trip's conditions and R ≥ tol, a true anomaly above pi does not come back, the bare acos being at most pi |
| Usm.RoundTripEccentricity | Tudat/Astrodynamics/BasicAstrodynamics/unifiedStateModelElementConversions.cpp:196-203 | R / C recovers the eccentricity that built the hodograph |
| Usm.RoundTripInclination | Tudat/Astrodynamics/BasicAstrodynamics/unifiedStateModelElementConversions.cpp:220-224 | acos(1 − 2 (epsilon1² + epsilon2²)) recovers the inclination that built the quaternion |
| Usm.RoundTripAxis | Tudat/Astrodynamics/BasicAstrodynamics/unifiedStateModelElementConversions.cpp:206-217 | mu / C² or mu / (2 C ve2 − ve²) recovers the first element that built C |

## Left out

- Floating point: IEEE-754 rounding, infinities, NaN and `std::numeric_limits` are not modelled. Numbers are reals, and machine epsilon is the constant 2^-52.
- Divisions by zero that the source does not check (they give an infinity or NaN there) are excluded by `requires`:
  - `Cartesian.KeplerianToCartesian`: p ≠ 0 and 1 + e cos nu ≠ 0;
  - `Cartesian.CartesianToKeplerian`: mu ≠ 0 and a non-zero angular momentum;
  - `Anomalies.TrueToHyperbolicEccentric`: 1 + cos nu ≠ 0, that is nu ≠ pi (its other divisor, e + cos nu, is at least e − 1 > 0);
  - the time functions: a ≠ 0 or mu ≠ 0 where they divide;
  - `TimeRelations.MeanMotionToSemiMajorAxis`: n ≠ 0;
  - `Usm.KeplerianToUsm`: p ≠ 0;
  - `Usm.UsmToKeplerian`: `Convertible`, meaning C ≠ 0, and R ≠ −C when C < 0.
- The transcendental functions are uninterpreted apart from the laws in `Elementary.Lawful`. Pi is a real in (3.14159, 3.14160), not the double constant.
- The node, the argument of periapsis and the true anomaly are not shown to survive the Keplerian ↔ Cartesian round trip: that would need trigonometric reasoning beyond those laws. Through the Unified State Model they do not survive in general: a node in (pi, 2 pi], and for a non-circular orbit a true anomaly in (pi, 2 pi], never come back (`Usm.NodeNotRecovered`, `Usm.AnomalyNotRecovered`); for the remaining angles the model states nothing. The eccentricity, the inclination and the first element are shown to survive: `Cartesian.CartesianRoundTrip` for Cartesian states on the conic's own branch (1 + e cos nu > 0), and `Usm.UsmRoundTrip` for the Unified State Model.
- The Newton-Raphson mean-to-eccentric-anomaly solver is not part of this model. Its class is not among the conversions modelled here.
- The numeric expectations of the unit tests (for example 4000 s ↔ 20.203139659369779 rad) are not modelled: with sqrt uninterpreted they cannot be evaluated. The round-trip lemmas state the property the tests sample.
- The `std::cerr` message on a pure-retrograde state is not modelled. Neither is the `Vector6d::Zero( 7 )` call, which asks a six-element vector type for seven zeros. The model's `Usm.UnifiedState` simply holds the seven elements.
- Boost's `atanh` is not part of this model; its overflow band of one machine epsilon below 1 and above −1 follows Boost's documented behaviour, and its argument here never leaves [−1, 1], so its domain error does not arise.
- Template `ScalarType` genericity and the Eigen and Boost types are not modelled. Vectors are `Vectors.Vec3` over reals.
- The thrust acceleration model and the flight-conditions files are not modelled. They are plumbing over collaborators outside these conversions.
- Anomalies.TrueToHyperbolicEccentric: the hyperbolic anomaly is characterised only for true anomalies the hyperbola reaches (1 + e cos nu > 0). For 1 + e cos nu < 0 the source returns atanh of a value in (−1, 1) that belongs to the other branch; the model returns the same value but states nothing about it.
- Anomalies.EllipticalRoundTrip: states equality of sine and cosine, not of the angle. The converters return atan2 values in [−pi, pi], so an input outside that range comes back shifted by whole turns. The same holds for Anomalies.EllipticalReverseRoundTrip and Anomalies.HyperbolicRoundTrip.
- TimeRelations.SemiMajorAxisToMeanMotion: requires a ≠ 0. For a = 0 the source does not throw (its test is a < 0) and computes sqrt(mu / 0), an infinity or NaN in floating point; the model has no value for it.
- TimeRelations.MeanMotionToSemiMajorAxis: models `pow(x, 1/3)` as the real cube root. For a negative mu / n² the source's `pow` gives NaN instead.
- Cartesian.KeplerianToCartesian: its own contract states the radius and the squared angular momentum of the result. The eccentricity vector e P and the angular momentum along the frame normal are stated separately, in `Cartesian.EccentricityVectorRecovered` and `Cartesian.MomentumRecovered`. The direction of the position within the plane is not stated.
- Cartesian.CartesianToKeplerian: the node, argument of periapsis and true anomaly are stated through their cosines and quadrant tests on the derived vectors, not related back to the Keplerian elements a state was built from.
- Usm.KeplerianToUsm: states the norms of the hodograph and the quaternion and the inclination it encodes, not the individual components' angles.
