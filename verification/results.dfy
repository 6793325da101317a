/** The exceptions the conversions throw, as values. */
module Results {

  /** One constructor per distinct `std::runtime_error` message, and one for the overflow
      error `boost::math::atanh` raises (and, under Boost's default policy, throws) at +-1. */
  datatype Error =
    | InvalidEccentricity      // "Eccentricity is invalid."
    | ParabolicNotImplemented  // "Parabolic orbits have not yet been implemented."
    | InvalidSemiMajorAxis     // "Semi-major axis is invalid."
    | InvalidInclination       // "Inclination is expected in range [0,PI]"
    | AtanhOverflow            // boost::math::atanh within machine epsilon of 1 or -1

  datatype Result<+T> = Ok(value: T) | Err(error: Error) {
    predicate IsFailure() {
      Err?
    }

    function PropagateFailure<U>(): Result<U>
      requires Err?
    {
      Err(error)
    }

    function Extract(): T
      requires Ok?
    {
      value
    }
  }
}
