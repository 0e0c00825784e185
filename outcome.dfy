/** The engine's fatal errors (each an `exit(-1)` or a failed `assert` in
    the source) and the result type that carries them. */
module Outcome {

  datatype Fatal =
    | ReadCountMismatch      // the alignment file's read count is not N1
    | ReadTypeMismatch       // the alignment file was written for another read type
    | TruncatedAlignments    // the alignment file ends before N1 fragments
    | NoNoiseDenominator     // N_tot <= N2, so the initial noise share is undefined
    | NoCountMass            // the reduced counts sum below EPSILON in an M-step
    | NoEffectiveLength      // no mass left after the effective-length correction
    | NoMappableMass         // no mass left after the mappability conversion
    | NoAlignableReads       // the tau denominator is not positive

  datatype Result<T> = Ok(value: T) | Err(error: Fatal)
}
