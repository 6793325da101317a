/** Recovering angles: acos with a quadrant flip (Cartesian -> Keplerian) and the
    "add 2 pi while below -tolerance" loops (Unified State Model -> Keplerian), and the
    equality of two angles in [0, pi] with one cosine. */
module Angles {
  import opened Elementary

  /** `angle` lies in [0, 2 pi], has cosine c, and its sine has the sign of the quadrant
      condition q (non-positive for q < 0, non-negative otherwise). */
  ghost predicate AngleWith(f: Functions, angle: real, c: real, q: real) {
    && 0.0 <= angle <= 2.0 * f.pi
    && f.cos(angle) == c
    && (q < 0.0 ==> f.sin(angle) <= 0.0)
    && (0.0 <= q ==> 0.0 <= f.sin(angle))
  }

  /** acos(c), replaced by 2 pi - acos(c) when the quadrant condition is negative: the
      angle with cosine c in the half-turn the quadrant condition selects. */
  function AngleFromCosine(f: Functions, c: real, quadrant: real): (angle: real)
    requires Lawful(f)
    requires -1.0 <= c <= 1.0
    ensures AngleWith(f, angle, c, quadrant)
  {
    AcosLaw(f, c);
    if quadrant < 0.0 then
      ReflectLaw(f, f.acos(c));
      2.0 * f.pi - f.acos(c)
    else
      f.acos(c)
  }

  /** Two angles in [0, pi] with the same cosine are equal. */
  lemma SameCosine(f: Functions, a: real, b: real)
    requires Lawful(f)
    requires 0.0 <= a <= f.pi && 0.0 <= b <= f.pi
    requires f.cos(a) == f.cos(b)
    ensures a == b
  {
    AcosOfCosLaw(f, a);
    AcosOfCosLaw(f, b);
  }

  // The wrap loops.

  /** The number of full turns the loop adds to x before it is at least -tolerance. */
  function WrapTurns(x: real, tolerance: real, fullTurn: real): (k: nat)
    requires 0.0 <= tolerance && 1.0 <= fullTurn
    ensures -tolerance <= x + k as real * fullTurn
    ensures k == 0 <==> -tolerance <= x
    ensures 0 < k ==> x + (k - 1) as real * fullTurn < -tolerance
    decreases if x < -tolerance then (-tolerance - x).Floor + 1 else 0
  {
    if x < -tolerance then
      var k := 1 + WrapTurns(x + fullTurn, tolerance, fullTurn);
      assert x + k as real * fullTurn == (x + fullTurn) + (k - 1) as real * fullTurn;
      k
    else
      0
  }

  /** "while x < -tolerance: x := x + fullTurn": the result is the input plus a whole number
      of turns, is at least -tolerance, and is the input itself when that already was. */
  function WrapUp(x: real, tolerance: real, fullTurn: real): (r: real)
    requires 0.0 <= tolerance && 1.0 <= fullTurn
    ensures -tolerance <= r
    ensures r == x + WrapTurns(x, tolerance, fullTurn) as real * fullTurn
    ensures -tolerance <= x ==> r == x
    ensures x < -tolerance ==> r < fullTurn - tolerance
  {
    var k := WrapTurns(x, tolerance, fullTurn);
    if 0 < k then
      assert x + k as real * fullTurn == x + (k - 1) as real * fullTurn + fullTurn;
      x + k as real * fullTurn
    else
      x
  }

  /** One turn of the loop does not change where it ends. */
  lemma WrapUpStep(x: real, tolerance: real, fullTurn: real)
    requires 0.0 <= tolerance && 1.0 <= fullTurn
    requires x < -tolerance
    ensures WrapUp(x + fullTurn, tolerance, fullTurn) == WrapUp(x, tolerance, fullTurn)
  {
    var k := WrapTurns(x + fullTurn, tolerance, fullTurn);
    assert WrapTurns(x, tolerance, fullTurn) == k + 1;
    assert x + (k + 1) as real * fullTurn == (x + fullTurn) + k as real * fullTurn;
  }

  /** The loop as the source writes it; it computes `WrapUp`. */
  method WrapUpLoop(x: real, tolerance: real, fullTurn: real) returns (r: real)
    requires 0.0 <= tolerance && 1.0 <= fullTurn
    ensures r == WrapUp(x, tolerance, fullTurn)
  {
    r := x;
    while r < -tolerance
      invariant WrapUp(r, tolerance, fullTurn) == WrapUp(x, tolerance, fullTurn)
      decreases if r < -tolerance then (-tolerance - r).Floor + 1 else 0
    {
      WrapUpStep(r, tolerance, fullTurn);
      r := r + fullTurn;
    }
  }
}
