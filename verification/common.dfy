/** Small value types shared by the whole model: optional values, the Python
    exceptions the engine can raise, Python's `float('inf')`, and `int()` of a
    float. */
module Common {

  datatype Option<+T> = None | Some(value: T)

  /** The Python exceptions that the modelled code can raise on its own data. */
  datatype PyError = ZeroDivisionError | KeyError

  /** The result of an expression that Python may abort with an exception. */
  datatype Outcome<+T> = Value(value: T) | Raised(error: PyError)

  /** A Python float that may be `float('inf')`. */
  datatype Extended = Finite(value: real) | Infinity

  /** A Python method that mutates its receiver and returns a flag, as a pure
      function: the flag and the receiver after the call. */
  datatype Reply<+S> = Reply(ok: bool, state: S)

  /** Times are whole seconds counted from `datetime.min`, 0001-01-01 00:00:00
      UTC; the fraction of a second is dropped. `datetime.max` falls in the
      last second of day 3652059, 9999-12-31. */
  const LastSecond: int := 3652059 * 86400 - 1

  /** A time `datetime` can hold: `OverflowError` is raised for any other. */
  predicate InDatetimeRange(t: int) {
    0 <= t <= LastSecond
  }

  /** Python's `int(x)` for a float `x`: truncation toward zero. */
  function Trunc(x: real): (n: int)
    ensures 0.0 <= x ==> n as real <= x < n as real + 1.0
    ensures x < 0.0 ==> n as real - 1.0 < x <= n as real
  {
    if x >= 0.0 then x.Floor else -((-x).Floor)
  }

  /** `int()` of a non-negative float is at least every integer below it. */
  lemma TruncAtLeast(x: real, k: int)
    requires 0.0 <= x && k as real <= x
    ensures k <= Trunc(x)
  {
  }
}
