/** Shared value types: optional values (a missing reading, pandas' NaN) and
    the results of operations that can raise. */
module Common {

  /** A value that may be missing. `None` stands for a NaN cell of a table. */
  datatype Option<+T> = None | Some(value: T)

  /** The exceptions the modelled code can raise, by cause. */
  datatype Error =
    | KeyNotFound        // pandas `.loc[ts]` with no row at `ts`
    | ShapeMismatch      // `assert len(X) == len(Y)` failed
    | InvalidInput       // a NaN (missing) feature reaching the regressor
    | InsufficientData   // an empty training sample, or an empty batch to predict
    | BadTimeString      // `int(...)` or `datetime(...)` rejected the server time
    | DateOverflow       // a datetime result outside years 1..9999

  datatype Result<+T> = Ok(value: T) | Err(error: Error)

  /** Addition that propagates a missing operand, as NaN does. */
  function AddOpt(a: Option<real>, b: Option<real>): (r: Option<real>)
    ensures r.Some? <==> a.Some? && b.Some?
    ensures r.Some? ==> r.value == a.value + b.value
  {
    if a.Some? && b.Some? then Some(a.value + b.value) else None
  }
}
