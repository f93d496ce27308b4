/**
 * The real-mode helpers of the early boot stages: `fail(code)` prints one
 * character and halts for ever, and `unwrap_or_fail` turns a missing value
 * into such a halt. A Rust `panic!`/`unwrap` ends in the panic handler's
 * endless loop instead. Both diverge, so the model returns them as values.
 */
module BootUtil {
  import opened Wrappers

  /** How a boot stage stops: `fail(code)` or the panic handler. */
  datatype Halt = Fail(code: nat) | Panic

  /** `Option::unwrap_or_fail(code)`. */
  function UnwrapOrFail<T>(o: Option<T>, code: nat): (r: Result<T, Halt>)
    ensures r.Ok? <==> o.Some?
    ensures o.Some? ==> r.value == o.value
    ensures o.None? ==> r.error == Fail(code)
  {
    match o
    case Some(v) => Ok(v)
    case None => Err(Fail(code))
  }

  /** `Result::unwrap_or_fail(code)`: the error itself is discarded. */
  function UnwrapResultOrFail<T, E>(x: Result<T, E>, code: nat): (r: Result<T, Halt>)
    ensures r.Ok? <==> x.Ok?
    ensures x.Ok? ==> r.value == x.value
    ensures x.Err? ==> r.error == Fail(code)
  {
    match x
    case Ok(v) => Ok(v)
    case Err(_) => Err(Fail(code))
  }

  /** `unwrap()`: a missing value panics. */
  function Unwrap<T>(o: Option<T>): (r: Result<T, Halt>)
    ensures r.Ok? <==> o.Some?
    ensures o.Some? ==> r.value == o.value
    ensures o.None? ==> r.error == Panic
  {
    match o
    case Some(v) => Ok(v)
    case None => Err(Panic)
  }
}
