/** Numerical constants of the EM engine. */
module Constants {

  type PositiveReal = r: real | r > 0.0 witness 1.0

  /** Floor below which a weight or a total counts as zero. It is defined in a
      utility header that is not part of this model, so it stands for an
      arbitrary positive value and no proof depends on which one. */
  const EPSILON: PositiveReal

  /** Minimum expected effective length; shorter ones are forced to zero.
      Defined in the same header, and treated the same way. */
  const MINEEL: PositiveReal

  /** Relative change at or above which an entry has not converged. */
  const STOP_CRITERIA: real := 0.001

  const MAX_ROUND: nat := 10000
  const MIN_ROUND: nat := 20

  /** Priors below this value are left out of the convergence test. */
  const PRIOR_FLOOR: real := 0.0000001

  /** Lower bound on the initial noise proportion. */
  const NOISE_FLOOR: real := 0.00000001
}
