/** Conversions between the true, eccentric, hyperbolic eccentric and mean anomaly
    (the anomaly part of orbitalElementConversions.h).

    The converters return what `atan2` or `atanh` return; nothing is normalised to
    [0, 2pi). Their contracts say which angle they return through its sine and cosine
    (or hyperbolic sine and cosine), with the defining relations multiplied out so that
    no division is needed.

    Each converter is split in two: a function on plain values (the sine and cosine of the
    given anomaly and the square root of |1 - e^2|) that does the source's divisions, and
    the converter proper, which evaluates the elementary functions and applies atan2 or
    atanh. The relations are named predicates, so that proofs match them as wholes.
 */
module Anomalies {
  import opened Elementary
  import opened Results

  /** The wrappers treat an orbit as parabolic when its eccentricity is within machine
      epsilon of one. */
  predicate IsParabolic(e: real) {
    Abs(e - 1.0) < MachineEpsilon
  }

  // The relations between anomalies, on their sines and cosines.

  /** (sx, cx) are the sine and cosine of the eccentric anomaly E (or the hyperbolic sine
      and cosine of the hyperbolic anomaly H) belonging to the true anomaly with sine and
      cosine (s, c); q is sqrt(1 - e^2), respectively sqrt(e^2 - 1):
      sx (1 + e c) == q s and cx (1 + e c) == e + c. */
  predicate EccentricOfTrue(sx: real, cx: real, s: real, c: real, q: real, e: real) {
    sx * (1.0 + e * c) == q * s && cx * (1.0 + e * c) == e + c
  }

  /** (s, c) are the sine and cosine of the true anomaly belonging to the elliptical
      eccentric anomaly with sine and cosine (sE, cE):
      s (1 - e cE) == q sE and c (1 - e cE) == cE - e, with q == sqrt(1 - e^2). */
  predicate TrueOfElliptical(s: real, c: real, sE: real, cE: real, q: real, e: real) {
    s * (1.0 - e * cE) == q * sE && c * (1.0 - e * cE) == cE - e
  }

  /** (s, c) are the sine and cosine of the true anomaly belonging to the hyperbolic
      anomaly with hyperbolic sine and cosine (sh, ch):
      s (e ch - 1) == q sh and c (e ch - 1) == e - ch, with q == sqrt(e^2 - 1). */
  predicate TrueOfHyperbolic(s: real, c: real, sh: real, ch: real, q: real, e: real) {
    s * (e * ch - 1.0) == q * sh && c * (e * ch - 1.0) == e - ch
  }

  // Shared steps.

  /** sqrt(1 - e^2) for an elliptical eccentricity. */
  lemma EllipticalSqrt(f: Functions, e: real)
    requires Lawful(f)
    requires 0.0 <= e < 1.0
    ensures IsSquareRoot(f.sqrt(1.0 - e * e), 1.0 - e * e)
  {
    EccentricitySquare(e);
    SqrtLaw(f, 1.0 - e * e);
  }

  /** sqrt(e^2 - 1) for a hyperbolic eccentricity. */
  lemma HyperbolicSqrt(f: Functions, e: real)
    requires Lawful(f)
    requires 1.0 < e
    ensures IsSquareRoot(f.sqrt(e * e - 1.0), e * e - 1.0)
  {
    EccentricitySquare(e);
    SqrtLaw(f, e * e - 1.0);
  }

  /** Dividing a pair by a non-zero d: the quotients times d give the pair back, and if the
      pair lies on the circle of radius |d| the quotients lie on the unit circle. */
  lemma Quotients(a: real, b: real, d: real)
    requires d != 0.0
    ensures (a / d) * d == a && (b / d) * d == b
    ensures a * a + b * b == d * d ==> UnitCircle(a / d, b / d)
  {
    if a * a + b * b == d * d {
      ScaledUnitCircle(a / d, b / d, a, b, d);
    }
  }

  // The elliptical conversions.

  /** For 0 <= e < 1 both 1 + e cos and 1 - e cos are positive. */
  lemma EllipticalDivisors(c: real, e: real, plus: real, minus: real)
    requires -1.0 <= c <= 1.0
    requires 0.0 <= e < 1.0
    requires plus == 1.0 + e * c && minus == 1.0 - e * c
    ensures 0.0 < plus && 0.0 < minus
  {
    assert -e <= e * c <= e;
  }

  /** (1 - e^2) sin^2 x + (e + cos x)^2 == (1 + e cos x)^2 and
      (1 - e^2) sin^2 x + (cos x - e)^2 == (1 - e cos x)^2, with s, c == sin x, cos x and
      q == sqrt(1 - e^2). */
  lemma EllipticalIdentities(s: real, c: real, q: real, e: real)
    requires UnitCircle(s, c)
    requires IsSquareRoot(q, 1.0 - e * e)
    ensures (q * s) * (q * s) + (e + c) * (e + c) == (1.0 + e * c) * (1.0 + e * c)
    ensures (q * s) * (q * s) + (c - e) * (c - e) == (1.0 - e * c) * (1.0 - e * c)
  {
    assert (q * s) * (q * s) == (q * q) * (s * s);
  }

  /** The sine and cosine of E the source computes from those of the true anomaly:
      sqrt(1 - e^2) sin nu / (1 + e cos nu) and (e + cos nu) / (1 + e cos nu), with s, c
      == sin nu, cos nu and q == sqrt(1 - e^2). */
  function EllipticalFromTrue(s: real, c: real, q: real, e: real): (sc: (real, real))
    requires UnitCircle(s, c)
    requires IsSquareRoot(q, 1.0 - e * e)
    requires 0.0 <= e < 1.0
    ensures UnitCircle(sc.0, sc.1)
    ensures EccentricOfTrue(sc.0, sc.1, s, c, q, e)
  {
    UnitCircleBounds(s, c);
    EllipticalDivisors(c, e, 1.0 + e * c, 1.0 - e * c);
    EllipticalIdentities(s, c, q, e);
    Quotients(q * s, e + c, 1.0 + e * c);
    (q * s / (1.0 + e * c), (e + c) / (1.0 + e * c))
  }

  /** The sine and cosine of nu the source computes from those of E:
      sqrt(1 - e^2) sin E / (1 - e cos E) and (cos E - e) / (1 - e cos E), with sE, cE ==
      sin E, cos E and q == sqrt(1 - e^2). */
  function TrueFromElliptical(sE: real, cE: real, q: real, e: real): (sc: (real, real))
    requires UnitCircle(sE, cE)
    requires IsSquareRoot(q, 1.0 - e * e)
    requires 0.0 <= e < 1.0
    ensures UnitCircle(sc.0, sc.1)
    ensures TrueOfElliptical(sc.0, sc.1, sE, cE, q, e)
  {
    UnitCircleBounds(sE, cE);
    EllipticalDivisors(cE, e, 1.0 + e * cE, 1.0 - e * cE);
    EllipticalIdentities(sE, cE, q, e);
    Quotients(q * sE, cE - e, 1.0 - e * cE);
    (q * sE / (1.0 - e * cE), (cE - e) / (1.0 - e * cE))
  }

  /** Converts a true anomaly to the elliptical eccentric anomaly. The result lies in
      [-pi, pi] and is the eccentric anomaly of the given true anomaly. */
  function TrueToEllipticalEccentric(f: Functions, trueAnomaly: real, e: real): (r: Result<real>)
    requires Lawful(f)
    ensures r.Err? <==> e < 0.0 || 1.0 <= e
    ensures r.Err? ==> r.error == InvalidEccentricity
    ensures r.Ok? ==> -f.pi <= r.value <= f.pi
    ensures r.Ok? ==>
      EccentricOfTrue(f.sin(r.value), f.cos(r.value),
                      f.sin(trueAnomaly), f.cos(trueAnomaly), f.sqrt(1.0 - e * e), e)
  {
    if 1.0 <= e || e < 0.0 then
      Err(InvalidEccentricity)
    else
      SinCosLaw(f, trueAnomaly);
      EllipticalSqrt(f, e);
      var sc := EllipticalFromTrue(f.sin(trueAnomaly), f.cos(trueAnomaly), f.sqrt(1.0 - e * e), e);
      Atan2Law(f, sc.0, sc.1);
      Ok(f.atan2(sc.0, sc.1))
  }

  /** Converts an elliptical eccentric anomaly to the true anomaly. The result lies in
      [-pi, pi] and is the true anomaly of the given eccentric anomaly. */
  function EllipticalEccentricToTrue(f: Functions, eccentricAnomaly: real, e: real): (r: Result<real>)
    requires Lawful(f)
    ensures r.Err? <==> e < 0.0 || 1.0 <= e
    ensures r.Err? ==> r.error == InvalidEccentricity
    ensures r.Ok? ==> -f.pi <= r.value <= f.pi
    ensures r.Ok? ==>
      TrueOfElliptical(f.sin(r.value), f.cos(r.value),
                       f.sin(eccentricAnomaly), f.cos(eccentricAnomaly), f.sqrt(1.0 - e * e), e)
  {
    if 1.0 <= e || e < 0.0 then
      Err(InvalidEccentricity)
    else
      SinCosLaw(f, eccentricAnomaly);
      EllipticalSqrt(f, e);
      var sc := TrueFromElliptical(f.sin(eccentricAnomaly), f.cos(eccentricAnomaly), f.sqrt(1.0 - e * e), e);
      Atan2Law(f, sc.0, sc.1);
      Ok(f.atan2(sc.0, sc.1))
  }

  /** True anomaly -> eccentric anomaly -> true anomaly returns an angle with the same sine
      and cosine, that is, the same angle up to a whole number of turns. */
  lemma EllipticalRoundTrip(f: Functions, trueAnomaly: real, e: real)
    requires Lawful(f)
    requires 0.0 <= e < 1.0
    ensures TrueToEllipticalEccentric(f, trueAnomaly, e).Ok?
    ensures var ea := TrueToEllipticalEccentric(f, trueAnomaly, e).value;
            var back := EllipticalEccentricToTrue(f, ea, e);
            && back.Ok?
            && f.cos(back.value) == f.cos(trueAnomaly)
            && f.sin(back.value) == f.sin(trueAnomaly)
  {
    SinCosLaw(f, trueAnomaly);
    EllipticalSqrt(f, e);
    var s, c, q := f.sin(trueAnomaly), f.cos(trueAnomaly), f.sqrt(1.0 - e * e);
    var sc := EllipticalFromTrue(s, c, q, e);
    Atan2Law(f, sc.0, sc.1);
    var ea := f.atan2(sc.0, sc.1);
    assert TrueToEllipticalEccentric(f, trueAnomaly, e) == Ok(ea);
    EllipticalValuesRoundTrip(s, c, q, e, sc.0, sc.1);
    var back := TrueFromElliptical(sc.0, sc.1, q, e);
    Atan2Law(f, back.0, back.1);
    assert EllipticalEccentricToTrue(f, ea, e) == Ok(f.atan2(back.0, back.1));
  }

  /** Eccentric anomaly -> true anomaly -> eccentric anomaly returns an angle with the same
      sine and cosine. */
  lemma EllipticalReverseRoundTrip(f: Functions, eccentricAnomaly: real, e: real)
    requires Lawful(f)
    requires 0.0 <= e < 1.0
    ensures EllipticalEccentricToTrue(f, eccentricAnomaly, e).Ok?
    ensures var nu := EllipticalEccentricToTrue(f, eccentricAnomaly, e).value;
            var back := TrueToEllipticalEccentric(f, nu, e);
            && back.Ok?
            && f.cos(back.value) == f.cos(eccentricAnomaly)
            && f.sin(back.value) == f.sin(eccentricAnomaly)
  {
    SinCosLaw(f, eccentricAnomaly);
    EllipticalSqrt(f, e);
    var sE, cE, q := f.sin(eccentricAnomaly), f.cos(eccentricAnomaly), f.sqrt(1.0 - e * e);
    var sc := TrueFromElliptical(sE, cE, q, e);
    Atan2Law(f, sc.0, sc.1);
    var nu := f.atan2(sc.0, sc.1);
    assert EllipticalEccentricToTrue(f, eccentricAnomaly, e) == Ok(nu);
    EllipticalValuesReverseRoundTrip(sE, cE, q, e, sc.0, sc.1);
    var back := EllipticalFromTrue(sc.0, sc.1, q, e);
    Atan2Law(f, back.0, back.1);
    assert TrueToEllipticalEccentric(f, nu, e) == Ok(f.atan2(back.0, back.1));
  }

  /** Any eccentric anomaly of a true anomaly maps back to that true anomaly. */
  lemma EllipticalValuesRoundTrip(s: real, c: real, q: real, e: real, sE: real, cE: real)
    requires UnitCircle(s, c) && UnitCircle(sE, cE)
    requires IsSquareRoot(q, 1.0 - e * e)
    requires 0.0 <= e < 1.0
    requires EccentricOfTrue(sE, cE, s, c, q, e)
    ensures TrueFromElliptical(sE, cE, q, e) == (s, c)
  {
    var back := TrueFromElliptical(sE, cE, q, e);
    EccentricitySquare(e);
    EllipticalRoundTripAlgebra(c, s, q, e, cE, sE, back.1, back.0);
  }

  /** Any true anomaly of an eccentric anomaly maps back to that eccentric anomaly. */
  lemma EllipticalValuesReverseRoundTrip(sE: real, cE: real, q: real, e: real, s: real, c: real)
    requires UnitCircle(s, c) && UnitCircle(sE, cE)
    requires IsSquareRoot(q, 1.0 - e * e)
    requires 0.0 <= e < 1.0
    requires TrueOfElliptical(s, c, sE, cE, q, e)
    ensures EllipticalFromTrue(s, c, q, e) == (sE, cE)
  {
    var back := EllipticalFromTrue(s, c, q, e);
    EccentricitySquare(e);
    EllipticalReverseAlgebra(c, s, q, e, cE, sE, back.1, back.0);
  }

  /** The algebra of the elliptical round trip: if (sE, cE) belongs to (s, c) and (s', c')
      to (sE, cE), then (s', c') == (s, c). */
  lemma EllipticalRoundTripAlgebra(c: real, s: real, q: real, e: real,
                                   cE: real, sE: real, c': real, s': real)
    requires 0.0 < 1.0 - Square(e)
    requires IsSquareRoot(q, 1.0 - e * e)
    requires EccentricOfTrue(sE, cE, s, c, q, e)
    requires TrueOfElliptical(s', c', sE, cE, q, e)
    ensures c' == c && s' == s
  {
    EllipticalDivisorProduct(e, c, cE);
    ComposedSines(s, q, sE, s', 1.0 + e * c, 1.0 - e * cE, 1.0 - Square(e), q * q);
    EllipticalComposedCosines(e, c, cE, c');
    CancelFactor(c', c, 1.0 - Square(e));
    CancelFactor(s', s, 1.0 - Square(e));
  }

  /** The algebra of the reverse round trip: if (s, c) belongs to (sE, cE) and (sE', cE')
      to (s, c), then (sE', cE') == (sE, cE). */
  lemma EllipticalReverseAlgebra(c: real, s: real, q: real, e: real,
                                 cE: real, sE: real, cE': real, sE': real)
    requires 0.0 < 1.0 - Square(e)
    requires IsSquareRoot(q, 1.0 - e * e)
    requires TrueOfElliptical(s, c, sE, cE, q, e)
    requires EccentricOfTrue(sE', cE', s, c, q, e)
    ensures cE' == cE && sE' == sE
  {
    EllipticalReverseDivisorProduct(e, c, cE);
    ComposedSines(sE, q, s, sE', 1.0 - e * cE, 1.0 + e * c, 1.0 - Square(e), q * q);
    EllipticalReverseComposedCosines(e, c, cE, cE');
    CancelFactor(cE', cE, 1.0 - Square(e));
    CancelFactor(sE', sE, 1.0 - Square(e));
  }

  /** Composing two sine relations y d == q x whose divisors multiply to k == q^2 scales
      the start by k. */
  lemma ComposedSines(s: real, q: real, sx: real, s': real, d: real, d': real, k: real, qq: real)
    requires sx * d == q * s
    requires s' * d' == q * sx
    requires d' * d == k
    requires qq == q * q && qq == k
    ensures s' * k == s * k
  {
    assert s' * (d' * d) == q * (sx * d);
  }

  // The steps of the elliptical round trips. Both divisors multiply to 1 - e^2.

  lemma EllipticalDivisorProduct(e: real, c: real, cE: real)
    requires cE * (1.0 + e * c) == e + c
    ensures (1.0 - e * cE) * (1.0 + e * c) == 1.0 - Square(e)
  {
    assert (1.0 - e * cE) * (1.0 + e * c) == (1.0 + e * c) - e * (cE * (1.0 + e * c));
  }

  lemma EllipticalReverseDivisorProduct(e: real, c: real, cE: real)
    requires c * (1.0 - e * cE) == cE - e
    ensures (1.0 + e * c) * (1.0 - e * cE) == 1.0 - Square(e)
  {
    assert (1.0 + e * c) * (1.0 - e * cE) == (1.0 - e * cE) + e * (c * (1.0 - e * cE));
  }

  lemma EllipticalComposedCosines(e: real, c: real, cE: real, c': real)
    requires cE * (1.0 + e * c) == e + c
    requires c' * (1.0 - e * cE) == cE - e
    ensures c' * (1.0 - Square(e)) == c * (1.0 - Square(e))
  {
    var d, d' := 1.0 + e * c, 1.0 - e * cE;
    assert d' * d == 1.0 - Square(e) by {
      assert d' * d == d - e * (cE * d);
    }
    assert c' * (d' * d) == (cE - e) * d;
  }

  lemma EllipticalReverseComposedCosines(e: real, c: real, cE: real, cE': real)
    requires c * (1.0 - e * cE) == cE - e
    requires cE' * (1.0 + e * c) == e + c
    ensures cE' * (1.0 - Square(e)) == cE * (1.0 - Square(e))
  {
    var d, d' := 1.0 - e * cE, 1.0 + e * c;
    assert d' * d == 1.0 - Square(e) by {
      assert d' * d == d + e * (c * d);
    }
    assert cE' * (d' * d) == (e + c) * d;
  }

  // The hyperbolic conversions.

  /** Where the hyperbolic conversion divides by 1 + cos nu, which the source does not check;
      a zero there is an IEEE infinity or NaN, which is not modelled. Its other divisor,
      e + cos nu, is at least e - 1 > 0 (`HyperbolicCoshDivisor`). */
  predicate HyperbolicDivisorNonZero(f: Functions, trueAnomaly: real) {
    1.0 + f.cos(trueAnomaly) != 0.0
  }

  /** For e > 1 the divisor e + cos nu is positive. */
  lemma HyperbolicCoshDivisor(f: Functions, trueAnomaly: real, e: real)
    requires Lawful(f)
    requires 1.0 < e
    ensures 0.0 < e + f.cos(trueAnomaly)
  {
    SinCosLaw(f, trueAnomaly);
    UnitCircleBounds(f.sin(trueAnomaly), f.cos(trueAnomaly));
  }

  /** `boost::math::atanh` raises an overflow error not only at +-1 but for every argument
      within machine epsilon of them: x < -1 + eps or x > 1 - eps. (Beyond +-1 it raises a
      domain error, which the argument here never reaches.) */
  predicate AtanhOverflows(t: real) {
    t < -1.0 + MachineEpsilon || 1.0 - MachineEpsilon < t
  }

  /** 1 - (1 - eps)^2: the atanh argument t of a true anomaly satisfies
      1 - t^2 == (1 + e cos nu)^2 / (e + cos nu)^2, so |t| > 1 - eps exactly when that
      ratio is below this bound. */
  const AtanhBand: real := 1.0 - (1.0 - MachineEpsilon) * (1.0 - MachineEpsilon)

  /** The true anomalies, given by their cosine c, so close to the asymptote
      1 + e c == 0 that the atanh of the conversion overflows. */
  predicate NearAsymptote(c: real, e: real) {
    Square(1.0 + e * c) < AtanhBand * Square(e + c)
  }

  /** The true anomalies a hyperbola actually reaches: those with 1 + e cos nu > 0, where
      the orbit equation r = p / (1 + e cos nu) gives a positive radius. */
  predicate OnHyperbola(f: Functions, trueAnomaly: real, e: real) {
    PositiveRadius(f.cos(trueAnomaly), e)
  }

  /** 1 + e c > 0, for c the cosine of a true anomaly. */
  predicate PositiveRadius(c: real, e: real) {
    0.0 < 1.0 + e * c
  }

  /** The argument the source passes to atanh: (q s / (1 + c)) / ((c + e) / (1 + c)), with
      s, c == sin nu, cos nu and q == sqrt(e^2 - 1). It is the t with t (e + c) == q s. */
  function HyperbolicTanh(s: real, c: real, q: real, e: real): (t: real)
    requires 1.0 + c != 0.0 && e + c != 0.0
    ensures t * (e + c) == q * s
  {
    var sinhLike := q * s / (1.0 + c);
    var coshLike := (c + e) / (1.0 + c);
    assert coshLike * (1.0 + c) == c + e;
    var t := sinhLike / coshLike;
    assert t * (e + c) == q * s by {
      assert t * coshLike == sinhLike;
      assert sinhLike * (1.0 + c) == q * s;
      assert t * (e + c) == t * coshLike * (1.0 + c);
    }
    t
  }

  /** The argument the hyperbolic conversion passes to atanh, as a function of the true
      anomaly. */
  function AtanhArgument(f: Functions, trueAnomaly: real, e: real): (t: real)
    requires Lawful(f)
    requires 1.0 < e && HyperbolicDivisorNonZero(f, trueAnomaly)
    ensures t * (e + f.cos(trueAnomaly)) == f.sqrt(e * e - 1.0) * f.sin(trueAnomaly)
  {
    HyperbolicCoshDivisor(f, trueAnomaly, e);
    HyperbolicTanh(f.sin(trueAnomaly), f.cos(trueAnomaly), f.sqrt(e * e - 1.0), e)
  }

  /** Converts a true anomaly to the hyperbolic eccentric anomaly. Near the asymptote
      1 + e cos nu == 0 the atanh argument comes within machine epsilon of +-1 and atanh
      overflows (`OverflowNearAsymptote`). For a true anomaly the hyperbola reaches, the
      result is the hyperbolic anomaly of that true anomaly. */
  function TrueToHyperbolicEccentric(f: Functions, trueAnomaly: real, e: real): (r: Result<real>)
    requires Lawful(f)
    requires 1.0 < e ==> HyperbolicDivisorNonZero(f, trueAnomaly)
    ensures r.Err? <==> e <= 1.0 || AtanhOverflows(AtanhArgument(f, trueAnomaly, e))
    ensures e <= 1.0 ==> r == Err(InvalidEccentricity)
    ensures 1.0 < e && 1.0 + e * f.cos(trueAnomaly) == 0.0 ==> r == Err(AtanhOverflow)
    ensures r.Ok? && OnHyperbola(f, trueAnomaly, e) ==>
      EccentricOfTrue(f.sinh(r.value), f.cosh(r.value),
                      f.sin(trueAnomaly), f.cos(trueAnomaly), f.sqrt(e * e - 1.0), e)
  {
    if e <= 1.0 then
      Err(InvalidEccentricity)
    else
      var t := AtanhArgument(f, trueAnomaly, e);
      AtanhArgumentRange(f, trueAnomaly, e, t);
      if AtanhOverflows(t) then
        Err(AtanhOverflow)
      else if OnHyperbola(f, trueAnomaly, e) then
        HyperbolicFromTrue(f, trueAnomaly, e, t);
        Ok(f.atanh(t))
      else
        Ok(f.atanh(t))
  }

  /** For e > 1 the conversion fails with an atanh overflow exactly on the band of true
      anomalies near the asymptote. */
  lemma OverflowNearAsymptote(f: Functions, trueAnomaly: real, e: real)
    requires Lawful(f)
    requires 1.0 < e && HyperbolicDivisorNonZero(f, trueAnomaly)
    ensures TrueToHyperbolicEccentric(f, trueAnomaly, e) == Err(AtanhOverflow) <==>
            NearAsymptote(f.cos(trueAnomaly), e)
  {
    AtanhOverflowBand(f, trueAnomaly, e, AtanhArgument(f, trueAnomaly, e));
  }

  /** The atanh argument of a true anomaly overflows exactly near the asymptote, and in
      particular on it. */
  lemma AtanhOverflowBand(f: Functions, trueAnomaly: real, e: real, t: real)
    requires Lawful(f)
    requires 1.0 < e && HyperbolicDivisorNonZero(f, trueAnomaly)
    requires t * (e + f.cos(trueAnomaly)) == f.sqrt(e * e - 1.0) * f.sin(trueAnomaly)
    ensures AtanhOverflows(t) <==> NearAsymptote(f.cos(trueAnomaly), e)
    ensures 1.0 + e * f.cos(trueAnomaly) == 0.0 ==> NearAsymptote(f.cos(trueAnomaly), e)
  {
    SinCosLaw(f, trueAnomaly);
    HyperbolicSqrt(f, e);
    HyperbolicCoshDivisor(f, trueAnomaly, e);
    var s, c, q := f.sin(trueAnomaly), f.cos(trueAnomaly), f.sqrt(e * e - 1.0);
    TanhSquare(t, c, s, q, e);
    TanhBand(t, e + c, 1.0 + e * c);
  }

  /** From (t g)^2 == g^2 - d^2 with g != 0: |t| > 1 - eps exactly when
      d^2 < (1 - (1 - eps)^2) g^2, which holds in particular when d == 0. */
  lemma TanhBand(t: real, g: real, d: real)
    requires g != 0.0
    requires (t * g) * (t * g) == g * g - d * d
    ensures AtanhOverflows(t) <==> Square(d) < AtanhBand * Square(g)
    ensures d == 0.0 ==> Square(d) < AtanhBand * Square(g)
  {
    var u := 1.0 - MachineEpsilon;
    PositiveSquare(g);
    OutsideSymmetric(t, u);
    ScaledComparison(u * u, t * t, g * g);
    assert (t * g) * (t * g) == (t * t) * (g * g);
    assert AtanhBand * Square(g) == g * g - (u * u) * (g * g);
  }

  /** For u > 0: t lies outside [-u, u] exactly when u^2 < t^2. */
  lemma OutsideSymmetric(t: real, u: real)
    requires 0.0 < u
    ensures (t < -u || u < t) <==> u * u < t * t
  {
    if t < -u {
      assert u * u < (-t) * (-t);
    } else if u < t {
      assert u * u < t * t;
    } else {
      assert t * t <= u * u by {
        if 0.0 <= t { assert t * t <= u * t <= u * u; }
        else { assert t * t <= u * (-t) <= u * u; }
      }
    }
  }

  /** Multiplying by a positive k keeps a strict order. */
  lemma ScaledComparison(a: real, b: real, k: real)
    requires 0.0 < k
    ensures a < b <==> a * k < b * k
  {
    assert (b - a) * k == b * k - a * k;
    if a < b { PositiveProduct(b - a, k, (b - a) * k); }
    else { assert 0.0 <= (a - b) * k; }
  }

  /** The atanh argument t, defined by t (e + cos nu) == sqrt(e^2 - 1) sin nu, never leaves
      [-1, 1] and reaches +-1 exactly at the asymptote 1 + e cos nu == 0. */
  lemma AtanhArgumentRange(f: Functions, trueAnomaly: real, e: real, t: real)
    requires Lawful(f)
    requires 1.0 < e && HyperbolicDivisorNonZero(f, trueAnomaly)
    requires t * (e + f.cos(trueAnomaly)) == f.sqrt(e * e - 1.0) * f.sin(trueAnomaly)
    ensures -1.0 <= t <= 1.0
    ensures (t <= -1.0 || 1.0 <= t) <==> 1.0 + e * f.cos(trueAnomaly) == 0.0
  {
    SinCosLaw(f, trueAnomaly);
    HyperbolicSqrt(f, e);
    HyperbolicCoshDivisor(f, trueAnomaly, e);
    var s, c, q := f.sin(trueAnomaly), f.cos(trueAnomaly), f.sqrt(e * e - 1.0);
    TanhSquare(t, c, s, q, e);
    TanhRange(t, e + c, 1.0 + e * c);
  }

  /** The identity behind the atanh argument: (t (e + c))^2 == (e + c)^2 - (1 + e c)^2,
      for (s, c) on the unit circle and q == sqrt(e^2 - 1). */
  lemma TanhSquare(t: real, c: real, s: real, q: real, e: real)
    requires UnitCircle(s, c)
    requires IsSquareRoot(q, e * e - 1.0)
    requires t * (e + c) == q * s
    ensures (t * (e + c)) * (t * (e + c)) == (e + c) * (e + c) - (1.0 + e * c) * (1.0 + e * c)
  {
    assert (q * s) * (q * s) == (q * q) * (s * s);
  }

  /** From (t g)^2 == g^2 - d^2 with g != 0: t lies in [-1, 1], and on its ends exactly
      when d == 0. */
  lemma TanhRange(t: real, g: real, d: real)
    requires g != 0.0
    requires (t * g) * (t * g) == g * g - d * d
    ensures -1.0 <= t <= 1.0
    ensures (t <= -1.0 || 1.0 <= t) <==> d == 0.0
  {
    if d == 0.0 {
      var tt, gg := t * t, g * g;
      assert (t * g) * (t * g) == gg;
      assert (t * g) * (t * g) == tt * gg;
      assert tt * gg == 1.0 * gg;
      PositiveSquare(g);
      CancelFactor(tt, 1.0, gg);
      assert (t - 1.0) * (t + 1.0) == 0.0;
      ZeroProduct(t - 1.0, t + 1.0);
    } else {
      ScaledSquareBelowOne(t, g, d);
      SquareBelowOne(t);
    }
  }

  /** On the hyperbola an atanh argument t with t (e + cos nu) == sqrt(e^2 - 1) sin nu lies
      in (-1, 1), and atanh t is the hyperbolic anomaly of nu. */
  lemma HyperbolicFromTrue(f: Functions, trueAnomaly: real, e: real, t: real)
    requires Lawful(f)
    requires 1.0 < e && OnHyperbola(f, trueAnomaly, e)
    requires t * (e + f.cos(trueAnomaly)) == f.sqrt(e * e - 1.0) * f.sin(trueAnomaly)
    ensures -1.0 < t < 1.0
    ensures EccentricOfTrue(f.sinh(f.atanh(t)), f.cosh(f.atanh(t)),
                            f.sin(trueAnomaly), f.cos(trueAnomaly), f.sqrt(e * e - 1.0), e)
  {
    SinCosLaw(f, trueAnomaly);
    HyperbolicSqrt(f, e);
    AtanhLaw(f, t);
    CoshLaw(f, f.atanh(t));
    HyperbolicFromTanh(t, f.sin(trueAnomaly), f.cos(trueAnomaly), f.sqrt(e * e - 1.0), e,
                       f.sinh(f.atanh(t)), f.cosh(f.atanh(t)));
  }

  /** The algebra of `HyperbolicFromTrue`: with s, c == sin nu, cos nu, q == sqrt(e^2 - 1),
      1 + e c > 0 and t the atanh argument, t lies in (-1, 1), and a point (ch, sh) of the
      hyperbola with sh == t ch (that is, cosh and sinh of atanh t) belongs to nu. */
  lemma HyperbolicFromTanh(t: real, s: real, c: real, q: real, e: real, sh: real, ch: real)
    requires UnitCircle(s, c)
    requires IsSquareRoot(q, e * e - 1.0)
    requires 1.0 < e
    requires PositiveRadius(c, e)
    requires t * (e + c) == q * s
    requires UnitHyperbola(ch, sh)
    requires -1.0 < t < 1.0 ==> sh == t * ch
    ensures -1.0 < t < 1.0
    ensures EccentricOfTrue(sh, ch, s, c, q, e)
  {
    var d := 1.0 + e * c;
    HyperbolicRatio(t, c, s, q, e, d);
    HyperbolicCoshScaled(ch, sh, t, e + c, d);
  }

  /** On the hyperbola (d == 1 + e cos nu > 0) the atanh argument t, defined by
      t (e + cos nu) == sqrt(e^2 - 1) sin nu, lies strictly inside (-1, 1):
      t^2 (e + cos nu)^2 == (e + cos nu)^2 - d^2. */
  lemma HyperbolicRatio(t: real, c: real, s: real, q: real, e: real, d: real)
    requires UnitCircle(s, c)
    requires IsSquareRoot(q, e * e - 1.0)
    requires 1.0 < e
    requires d == 1.0 + e * c && 0.0 < d
    requires t * (e + c) == q * s
    ensures 0.0 < e + c
    ensures (t * (e + c)) * (t * (e + c)) == (e + c) * (e + c) - d * d
    ensures -1.0 < t < 1.0
  {
    EccentricitySquare(e);
    assert e * (e + c) == e * e - 1.0 + d;
    assert e + c <= 0.0 ==> e * (e + c) <= 0.0;
    assert (q * s) * (q * s) == (q * q) * (s * s);
    ScaledSquareBelowOne(t, e + c, d);
    SquareBelowOne(t);
  }

  /** If (t g)^2 == g^2 - d^2 with g and d non-zero, then t^2 < 1. */
  lemma ScaledSquareBelowOne(t: real, g: real, d: real)
    requires g != 0.0 && d != 0.0
    requires (t * g) * (t * g) == g * g - d * d
    ensures Square(t) < 1.0
  {
    PositiveSquare(d);
    PositiveSquare(g);
    PositiveFactor(1.0 - Square(t), Square(g), Square(d));
  }

  /** With sinh h == t cosh h and t (e + cos nu) related as above, cosh h (1 + e cos nu)
      == e + cos nu; here g == e + cos nu and d == 1 + e cos nu. */
  lemma HyperbolicCoshScaled(ch: real, sh: real, t: real, g: real, d: real)
    requires UnitHyperbola(ch, sh)
    requires sh == t * ch
    requires 0.0 < d && 0.0 < g
    requires (t * g) * (t * g) == g * g - d * d
    ensures ch * d == g
    ensures sh * d == t * g
  {
    assert (ch * ch) * (1.0 - t * t) == 1.0;
    assert d * d == (g * g) * (1.0 - t * t);
    assert (ch * d) * (ch * d) == g * g by {
      assert (ch * d) * (ch * d) == (g * g) * ((ch * ch) * (1.0 - t * t));
    }
    PositiveProduct(ch, d, ch * d);
    EqualSquares(ch * d, g);
  }

  /** (e^2 - 1) sinh^2 H + (e - cosh H)^2 == (e cosh H - 1)^2, with q == sqrt(e^2 - 1);
      the divisor d == e cosh H - 1 is positive. */
  lemma HyperbolicIdentity(ch: real, sh: real, q: real, e: real, d: real)
    requires UnitHyperbola(ch, sh)
    requires IsSquareRoot(q, e * e - 1.0)
    requires 1.0 < e
    requires d == e * ch - 1.0
    ensures 0.0 < d
    ensures (q * sh) * (q * sh) + (e - ch) * (e - ch) == d * d
  {
    assert 1.0 * 1.0 < e * ch;
    assert (q * sh) * (q * sh) == (q * q) * (sh * sh);
  }

  /** The sine and cosine of nu the source computes from the hyperbolic anomaly:
      sqrt(e^2 - 1) sinh H / (e cosh H - 1) and (e - cosh H) / (e cosh H - 1), with sh, ch
      == sinh H, cosh H and q == sqrt(e^2 - 1). */
  function TrueFromHyperbolic(sh: real, ch: real, q: real, e: real): (sc: (real, real))
    requires UnitHyperbola(ch, sh)
    requires IsSquareRoot(q, e * e - 1.0)
    requires 1.0 < e
    ensures UnitCircle(sc.0, sc.1)
    ensures TrueOfHyperbolic(sc.0, sc.1, sh, ch, q, e)
  {
    HyperbolicIdentity(ch, sh, q, e, e * ch - 1.0);
    Quotients(q * sh, e - ch, e * ch - 1.0);
    (q * sh / (e * ch - 1.0), (e - ch) / (e * ch - 1.0))
  }

  /** Converts a hyperbolic eccentric anomaly to the true anomaly. The result lies in
      [-pi, pi] and is the true anomaly of the given hyperbolic anomaly. */
  function HyperbolicEccentricToTrue(f: Functions, hyperbolicAnomaly: real, e: real): (r: Result<real>)
    requires Lawful(f)
    ensures r.Err? <==> e <= 1.0
    ensures r.Err? ==> r.error == InvalidEccentricity
    ensures r.Ok? ==> -f.pi <= r.value <= f.pi
    ensures r.Ok? ==>
      TrueOfHyperbolic(f.sin(r.value), f.cos(r.value),
                       f.sinh(hyperbolicAnomaly), f.cosh(hyperbolicAnomaly), f.sqrt(e * e - 1.0), e)
  {
    if e <= 1.0 then
      Err(InvalidEccentricity)
    else
      CoshLaw(f, hyperbolicAnomaly);
      HyperbolicSqrt(f, e);
      var sc := TrueFromHyperbolic(f.sinh(hyperbolicAnomaly), f.cosh(hyperbolicAnomaly), f.sqrt(e * e - 1.0), e);
      Atan2Law(f, sc.0, sc.1);
      Ok(f.atan2(sc.0, sc.1))
  }

  /** True anomaly -> hyperbolic anomaly -> true anomaly returns an angle with the same sine
      and cosine, for every true anomaly the hyperbola reaches and whose atanh does not
      overflow (outside the band of `OverflowNearAsymptote`). */
  lemma HyperbolicRoundTrip(f: Functions, trueAnomaly: real, e: real)
    requires Lawful(f)
    requires 1.0 < e && HyperbolicDivisorNonZero(f, trueAnomaly)
    requires OnHyperbola(f, trueAnomaly, e)
    ensures TrueToHyperbolicEccentric(f, trueAnomaly, e).Ok? <==> !AtanhOverflows(AtanhArgument(f, trueAnomaly, e))
    ensures var r := TrueToHyperbolicEccentric(f, trueAnomaly, e);
            r.Ok? ==>
            var back := HyperbolicEccentricToTrue(f, r.value, e);
            && back.Ok?
            && f.cos(back.value) == f.cos(trueAnomaly)
            && f.sin(back.value) == f.sin(trueAnomaly)
  {
    var r := TrueToHyperbolicEccentric(f, trueAnomaly, e);
    if r.Ok? {
      SinCosLaw(f, trueAnomaly);
      HyperbolicSqrt(f, e);
      CoshLaw(f, r.value);
      var s, c, q := f.sin(trueAnomaly), f.cos(trueAnomaly), f.sqrt(e * e - 1.0);
      var sh, ch := f.sinh(r.value), f.cosh(r.value);
      HyperbolicValuesRoundTrip(s, c, q, e, sh, ch);
      var back := TrueFromHyperbolic(sh, ch, q, e);
      Atan2Law(f, back.0, back.1);
      assert HyperbolicEccentricToTrue(f, r.value, e) == Ok(f.atan2(back.0, back.1));
    }
  }

  /** The hyperbolic anomaly of a true anomaly maps back to that true anomaly. */
  lemma HyperbolicValuesRoundTrip(s: real, c: real, q: real, e: real, sh: real, ch: real)
    requires UnitCircle(s, c) && UnitHyperbola(ch, sh)
    requires IsSquareRoot(q, e * e - 1.0)
    requires 1.0 < e
    requires EccentricOfTrue(sh, ch, s, c, q, e)
    ensures TrueFromHyperbolic(sh, ch, q, e) == (s, c)
  {
    var back := TrueFromHyperbolic(sh, ch, q, e);
    EccentricitySquare(e);
    HyperbolicRoundTripAlgebra(c, s, q, e, ch, sh, back.1, back.0);
  }

  /** The algebra of the hyperbolic round trip: if (sh, ch) belongs to (s, c) and (s', c')
      to (sh, ch), then (s', c') == (s, c). */
  lemma HyperbolicRoundTripAlgebra(c: real, s: real, q: real, e: real,
                                   ch: real, sh: real, c': real, s': real)
    requires 0.0 < Square(e) - 1.0
    requires IsSquareRoot(q, e * e - 1.0)
    requires EccentricOfTrue(sh, ch, s, c, q, e)
    requires TrueOfHyperbolic(s', c', sh, ch, q, e)
    ensures c' == c && s' == s
  {
    HyperbolicDivisorProduct(e, c, ch);
    ComposedSines(s, q, sh, s', 1.0 + e * c, e * ch - 1.0, Square(e) - 1.0, q * q);
    HyperbolicComposedCosines(e, c, ch, c');
    CancelFactor(c', c, Square(e) - 1.0);
    CancelFactor(s', s, Square(e) - 1.0);
  }

  // The steps of the hyperbolic round trip; the divisors multiply to e^2 - 1.

  lemma HyperbolicDivisorProduct(e: real, c: real, ch: real)
    requires ch * (1.0 + e * c) == e + c
    ensures (e * ch - 1.0) * (1.0 + e * c) == Square(e) - 1.0
  {
    assert (e * ch - 1.0) * (1.0 + e * c) == e * (ch * (1.0 + e * c)) - (1.0 + e * c);
  }

  lemma HyperbolicComposedCosines(e: real, c: real, ch: real, c': real)
    requires ch * (1.0 + e * c) == e + c
    requires c' * (e * ch - 1.0) == e - ch
    ensures c' * (Square(e) - 1.0) == c * (Square(e) - 1.0)
  {
    var d, d' := 1.0 + e * c, e * ch - 1.0;
    assert d' * d == Square(e) - 1.0 by {
      assert d' * d == e * (ch * d) - d;
    }
    assert c' * (d' * d) == (e - ch) * d;
  }

  // The wrappers for an eccentricity not known in advance.

  /** Converts a true anomaly to the eccentric anomaly of either kind. */
  function TrueToEccentric(f: Functions, trueAnomaly: real, e: real): (r: Result<real>)
    requires Lawful(f)
    requires 1.0 < e && !IsParabolic(e) ==> HyperbolicDivisorNonZero(f, trueAnomaly)
    ensures r.Err? <==> e < 0.0 || IsParabolic(e) || (1.0 < e && AtanhOverflows(AtanhArgument(f, trueAnomaly, e)))
    ensures e < 0.0 ==> r == Err(InvalidEccentricity)
    ensures 0.0 <= e && IsParabolic(e) ==> r == Err(ParabolicNotImplemented)
    ensures 0.0 <= e < 1.0 && !IsParabolic(e) ==> r == TrueToEllipticalEccentric(f, trueAnomaly, e)
    ensures 1.0 < e && !IsParabolic(e) ==> r == TrueToHyperbolicEccentric(f, trueAnomaly, e)
  {
    if e < 0.0 then
      Err(InvalidEccentricity)
    else if IsParabolic(e) then
      Err(ParabolicNotImplemented)
    else if 0.0 <= e < 1.0 then
      TrueToEllipticalEccentric(f, trueAnomaly, e)
    else
      TrueToHyperbolicEccentric(f, trueAnomaly, e)
  }

  /** Converts an eccentric anomaly of either kind to the true anomaly. */
  function EccentricToTrue(f: Functions, eccentricAnomaly: real, e: real): (r: Result<real>)
    requires Lawful(f)
    ensures r.Err? <==> e < 0.0 || IsParabolic(e)
    ensures e < 0.0 ==> r == Err(InvalidEccentricity)
    ensures 0.0 <= e && IsParabolic(e) ==> r == Err(ParabolicNotImplemented)
    ensures 0.0 <= e < 1.0 && !IsParabolic(e) ==> r == EllipticalEccentricToTrue(f, eccentricAnomaly, e)
    ensures 1.0 < e && !IsParabolic(e) ==> r == HyperbolicEccentricToTrue(f, eccentricAnomaly, e)
  {
    if e < 0.0 then
      Err(InvalidEccentricity)
    else if IsParabolic(e) then
      Err(ParabolicNotImplemented)
    else if 0.0 <= e < 1.0 then
      EllipticalEccentricToTrue(f, eccentricAnomaly, e)
    else
      HyperbolicEccentricToTrue(f, eccentricAnomaly, e)
  }

  /** Kepler's equation M = E - e sin E. The source checks nothing here. The contract relates
      M to cos E, (E - M)^2 == e^2 (1 - cos^2 E), and for e >= 0 bounds |E - M| by e and fixes
      the sign of E - M as that of sin E; together these determine M. */
  function EllipticalEccentricToMean(f: Functions, eccentricAnomaly: real, e: real): (m: real)
    requires Lawful(f)
    ensures 0.0 <= e ==> eccentricAnomaly - e <= m <= eccentricAnomaly + e
    ensures Square(eccentricAnomaly - m) == e * e * (1.0 - Square(f.cos(eccentricAnomaly)))
    ensures 0.0 <= e && 0.0 <= f.sin(eccentricAnomaly) ==> m <= eccentricAnomaly
    ensures 0.0 <= e && f.sin(eccentricAnomaly) <= 0.0 ==> eccentricAnomaly <= m
  {
    SinCosLaw(f, eccentricAnomaly);
    assert Square(e * f.sin(eccentricAnomaly)) == e * e * (f.sin(eccentricAnomaly) * f.sin(eccentricAnomaly));
    UnitCircleBounds(f.sin(eccentricAnomaly), f.cos(eccentricAnomaly));
    ScaledBound(e, f.sin(eccentricAnomaly), e * f.sin(eccentricAnomaly));
    eccentricAnomaly - e * f.sin(eccentricAnomaly)
  }

  /** A number in [-1, 1] scaled by e >= 0 lies in [-e, e]. */
  lemma ScaledBound(e: real, x: real, p: real)
    requires -1.0 <= x <= 1.0
    requires p == e * x
    ensures 0.0 <= e ==> -e <= p <= e
  {
  }

  /** The hyperbolic Kepler equation M = e sinh H - H. The source checks nothing here. The
      contract relates M to cosh H, (M + H)^2 == e^2 (cosh^2 H - 1), and for e >= 0 fixes the
      sign of M + H as that of sinh H; together these determine M. */
  function HyperbolicEccentricToMean(f: Functions, hyperbolicAnomaly: real, e: real): (m: real)
    requires Lawful(f)
    ensures Square(m + hyperbolicAnomaly) == e * e * (Square(f.cosh(hyperbolicAnomaly)) - 1.0)
    ensures 0.0 <= e ==> 0.0 <= (m + hyperbolicAnomaly) * f.sinh(hyperbolicAnomaly)
  {
    CoshLaw(f, hyperbolicAnomaly);
    var sh := f.sinh(hyperbolicAnomaly);
    assert sh * sh == Square(f.cosh(hyperbolicAnomaly)) - 1.0;
    assert Square(e * sh) == e * e * (sh * sh);
    SameSignProduct(e, sh);
    e * sh - hyperbolicAnomaly
  }

  /** (e s) s == e s^2 is non-negative for e >= 0. */
  lemma SameSignProduct(e: real, s: real)
    ensures 0.0 <= e ==> 0.0 <= (e * s) * s
  {
    NonNegativeSquare(s);
    assert (e * s) * s == e * Square(s);
    if 0.0 < e && 0.0 < Square(s) {
      PositiveProduct(e, Square(s), e * Square(s));
    }
  }

  /** Converts an eccentric anomaly of either kind to the mean anomaly. */
  function EccentricToMean(f: Functions, eccentricAnomaly: real, e: real): (r: Result<real>)
    requires Lawful(f)
    ensures r.Err? <==> e < 0.0 || IsParabolic(e)
    ensures e < 0.0 ==> r == Err(InvalidEccentricity)
    ensures 0.0 <= e && IsParabolic(e) ==> r == Err(ParabolicNotImplemented)
    ensures 0.0 <= e < 1.0 && !IsParabolic(e) ==> r == Ok(EllipticalEccentricToMean(f, eccentricAnomaly, e))
    ensures 1.0 < e && !IsParabolic(e) ==> r == Ok(HyperbolicEccentricToMean(f, eccentricAnomaly, e))
  {
    if e < 0.0 then
      Err(InvalidEccentricity)
    else if IsParabolic(e) then
      Err(ParabolicNotImplemented)
    else if 0.0 <= e < 1.0 then
      Ok(EllipticalEccentricToMean(f, eccentricAnomaly, e))
    else
      Ok(HyperbolicEccentricToMean(f, eccentricAnomaly, e))
  }
}
