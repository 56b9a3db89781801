/** The values every retry wrapper works on: the outcome of one call of the
    wrapped data-access operation, how a whole retry run ends, and what a run
    records (how many calls it made and which pauses it took). */
module Runs {

  datatype Option<+T> = None | Some(value: T)

  /** One call of the wrapped operation (`ExecuteScalar`, `ExecuteReader`,
      `ExecuteNonQuery`, `Open`, or their async forms): it returns a value or
      throws an exception. Exceptions are opaque values of type E. */
  datatype Outcome<+T, +E> = Success(value: T) | Failure(error: E)

  /** How a retry run ends: it returns a value, rethrows an exception of the
      wrapped operation unchanged, ends because the cancellation token fired
      during a backoff pause, or (only in the fuelled models of the recursive
      wrappers) has not ended within the fuel it was given. */
  datatype Completion<+T, +E> = Returned(value: T) | Thrown(error: E) | Cancelled | Unfinished

  /** A run of a loop wrapper: how it ended, how many times it called the
      wrapped operation, and the pauses it began, in milliseconds, in order. */
  datatype Run<+T, +E> = Run(completion: Completion<T, E>, invocations: nat, delays: seq<nat>)

  /** The arguments one entry into a recursive wrapper received. */
  datatype Args = Args(retryAttempts: int, attemptNumber: int)

  /** A run of a recursive wrapper: as Run, plus the arguments of every entry
      into the recursive method, in order. */
  datatype RecursiveRun<+T, +E> =
    RecursiveRun(completion: Completion<T, E>, invocations: nat, delays: seq<nat>, calls: seq<Args>)

  /** `ConnectionState` as the wrapped connection reports it. */
  datatype ConnectionState = Closed | Open | Connecting | Executing | Fetching | Broken

  /** A C# postfix update `x--` / `x++`: `value` is what the expression
      yields, `variable` what the variable holds afterwards. */
  datatype Postfix = Postfix(value: int, variable: int)

  /** `x--` yields the old value: only the variable, which nothing reads
      afterwards in the recursive wrappers, moves down by one. */
  function PostDecrement(x: int): (r: Postfix)
    ensures r.value == x && r.variable == r.value - 1
  {
    Postfix(x, x - 1)
  }

  /** `x++` yields the old value: only the variable moves up by one. */
  function PostIncrement(x: int): (r: Postfix)
    ensures r.value == x && r.variable == r.value + 1
  {
    Postfix(x, x + 1)
  }
}
