/** Outcomes of the station solvers: a value, or the reason the source
    would have raised instead of returning one. */
module Status {

  /** Why a solver produced no value. */
  datatype SolverError =
    | TooFewSamples          // numpy's gradient needs at least two samples
    | EmptyMask              // numpy's interp refuses an empty sample array
    | DegenerateSecantStep   // two equal objective values: the secant update divides by zero

  datatype Result<+T> = Ok(value: T) | Err(error: SolverError) {

    predicate IsFailure() {
      Err?
    }

    function PropagateFailure<U>(): Result<U>
      requires Err?
    {
      Err(error)
    }

    function Extract(): T
      requires Ok?
    {
      value
    }
  }
}
