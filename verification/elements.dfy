/** The element sets the conversions exchange. */
module Elements {
  import opened Vectors

  /** Classical Keplerian elements, in the source's index order. For a parabolic orbit the
      first element holds the semi-latus rectum instead of the semi-major axis. Angles are in
      radians. */
  datatype Keplerian = Keplerian(
    semiMajorAxis: real,
    eccentricity: real,
    inclination: real,
    argumentOfPeriapsis: real,
    longitudeOfAscendingNode: real,
    trueAnomaly: real)

  /** A Cartesian state: position and velocity. */
  datatype CartesianState = CartesianState(position: Vec3, velocity: Vec3)
}
