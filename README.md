# DbExtensions retry engine, modelled in Dafny

DbExtensions adds retrying wrappers to `DbCommand` and `DbConnection`:
`ExecuteScalarWithRetry`, `ExecuteReaderWithRetry`, `ExecuteNonQueryWithRetry`,
`EnsureOpenWithRetry` and their `…Async` forms. Each wrapper calls the
underlying data-access operation. When the call throws, the wrapper pauses for
2^min(attempt, 8) seconds and tries again. When the budget is spent, it
rethrows the exception. The library has seven hand-made copies of this engine,
in two families that behave differently. This project models both families and
proves what each one actually does.

**The wrapped operation is an oracle.** `op: nat -> Outcome<T, E>` gives the
outcome of the i-th call (0-based): `Success(value)` or `Failure(exception)`.
A run records three things, in `Run` or `RecursiveRun` (module `Runs`):

- how it ended: `Returned`, `Thrown` (the operation's own exception, unchanged), `Cancelled`, or `Unfinished`;
- how many calls it made;
- the pauses it took, in milliseconds.

Cancellation in the async forms is an oracle too. `cancelAt == Some(c)` means
the token is found cancelled during pause number c (0-based). A token that
fires while the wrapped call runs makes that call fail with its own
exception, which the code catches like any other. When a pause follows, that
pause throws at once, so this case is also "cancelled at the next pause".
When no pause follows, the exception is rethrown as the call's own failure.
That happens with a budget of 0 or less in `DbConnectionExtensions.cs`
(line 118). In the loop wrappers a pause follows every failure, so there the
case is always a cancelled pause.

**Loop family** (`ScalarWithRetry.cs`, `GetReaderWithRetry.cs`,
`NonQueryWithRetry.cs`, `OpenConnectionWithRetry.cs`).

- The loop is written once, as the method `LoopRetry.Retry`. Its loop invariants keep `attempt == failures + 1`.
- The method is proved equal to `LoopRetry.Expected`, a closed-form description of a run.
- Each file's entry points are thin methods that call `Retry` with the file's defaults.
- As written, an operation that always fails is called `max(retryAttempts, 1)` times.
- A pause follows every failure, including the last one before the rethrow.
- Example: budget 2, with an operation that fails, fails, then would return 42. The run rethrows the second exception after pauses of 2 s and 4 s. The third call is never made (`LoopRetry.TwoAttemptsScenario`).
- For `retryAttempts >= 1` this is what the doc comments of the scalar, reader and non-query loops promise: at most `retryAttempts` attempts (`ScalarWithRetry.cs:16`). The doc comment of `OpenConnectionWithRetry.cs` (line 14) speaks of `retryAttempts` retry attempts, which would mean one more call. The code makes `max(retryAttempts, 1)` calls there too, and the model follows the code.

**Recursive family** (`DbConnectionExtensions.cs`, `src/DbExtensions/DbCommandExtensions.cs`,
`DbExtensions/DbCommandExtensions.cs`).

- Each file's private recursive method is a function with explicit `fuel`, an upper bound on how many entries are modelled.
- C#'s `retryAttempts--` and `attemptNumber++` are modelled by `Runs.PostDecrement` and `Runs.PostIncrement`. Each yields the old value.
- So every recursive call gets the arguments of the first one, and every pause lasts 2 s.
- With a positive budget, an operation that always fails is retried for as long as there is fuel.
- Beside each as-written function there is a corrected one that uses pre-decrement. Its intended properties are proved (see Findings). The public entry points model the code as written.

## Model

| member | source | states |
|---|---|---|
| Backoff.DelayMs | src/DbExtensions/DbCommand/ScalarWithRetry.cs:31 | the capped pause after a failed attempt, in milliseconds; whatever the attempt number, it never exceeds 2^8 s |
| Backoff.UncappedDelayMs | DbExtensions/DbCommandExtensions.cs:25 | the uncapped pause of the older reader wrapper: at least 1 s for attempt numbers from 0 on, and 0 for a negative one, where the `(int)` cast truncates the fraction |
| Backoff.DelayMsRange | src/DbExtensions/DbCommand/ScalarWithRetry.cs:31 | the pause after any attempt >= 1 is between 2000 ms and 256000 ms |
| Backoff.DelayMsCapped | src/DbExtensions/DbCommand/ScalarWithRetry.cs:10 | cap law: from attempt 8 on, every pause is exactly 256000 ms |
| Backoff.DelayMsBelowCap | src/DbExtensions/DbCommand/NonQueryWithRetry.cs:28 | for attempts 0..8 the pause is exactly 1000 * 2^attempt ms |
| Backoff.DelayMsMonotone | src/DbExtensions/DbCommand/GetReaderWithRetry.cs:30 | a later attempt never pauses less than an earlier one |
| Backoff.UncappedDelayDoubles | DbExtensions/DbCommandExtensions.cs:25 | the uncapped formula doubles with each attempt number and passes 256000 ms from attempt 9 on |
| LoopRetry.Schedule | src/DbExtensions/DbCommand/ScalarWithRetry.cs:31-33 | the pauses a loop run takes after its first n failures: one per failure, none over 2^8 s (ScheduleBounds and ScheduleNonDecreasing state the rest) |
| LoopRetry.LeadingFailures | src/DbExtensions/DbCommand/ScalarWithRetry.cs:24-27 | the count f of leading failures within n calls: at most n, every call below f fails, and call f succeeds when f < n |
| LoopRetry.Expected | src/DbExtensions/DbCommand/ScalarWithRetry.cs:21-35 | a run makes between 1 and max(retryAttempts, 1) calls, takes no more pauses than calls, and always ends |
| LoopRetry.Retry | src/DbExtensions/DbCommand/ScalarWithRetry.cs:23-34 | the `while (true)` loop, with invariant attempt == failures + 1, yields exactly the run `Expected` describes: same end, same call count, same pauses |
| LoopRetry.FirstCallSucceeds | src/DbExtensions/DbCommand/ScalarWithRetry.cs:23-27 | a first call that succeeds is returned after one call and no pause, whatever the budget |
| LoopRetry.ReturnsFirstSuccess | src/DbExtensions/DbCommand/ScalarWithRetry.cs:24-27 | calls stop at the first success; its value is returned and every earlier call failed |
| LoopRetry.RethrowsLastFailure | src/DbExtensions/DbCommand/ScalarWithRetry.cs:29-33 | a rethrow comes only after max(retryAttempts, 1) calls that all failed, and it is the last call's exception |
| LoopRetry.AlwaysFailing | src/DbExtensions/DbCommand/NonQueryWithRetry.cs:26-30 | an always-failing operation is called max(retryAttempts, 1) times, each failure is followed by its pause, and the last exception is rethrown |
| LoopRetry.PauseAfterEveryFailure | src/DbExtensions/DbCommand/ScalarWithRetry.cs:31-33 | a pause follows a call exactly when that call failed, the final failure included; the pauses follow the schedule |
| LoopRetry.ScheduleBounds | src/DbExtensions/DbCommand/GetReaderWithRetry.cs:30 | every scheduled pause lies between 2 s and 256 s, and is exactly 256 s from the pause after attempt 8 on |
| LoopRetry.ScheduleNonDecreasing | src/DbExtensions/DbCommand/GetReaderWithRetry.cs:30 | no scheduled pause is shorter than an earlier one |
| LoopRetry.SucceedsAfterFailures | src/DbExtensions/DbCommand/NonQueryWithRetry.cs:21-31 | failing j-1 times and then succeeding, with j <= max(retryAttempts, 1), returns call j's value after exactly j-1 pauses of 2^1 .. 2^min(j-1, 8) s |
| LoopRetry.CancelledDuringPause | src/DbExtensions/DbCommand/ScalarWithRetry.cs:51-57 | the run ends cancelled exactly when it reaches the cancelled pause c; it then makes c+1 calls and no call after that pause |
| LoopRetry.SmallBudgetsAgree | src/DbExtensions/DbCommand/GetReaderWithRetry.cs:31-32 | a budget of 1 or less behaves exactly like a budget of 1 |
| LoopRetry.CancelDuringSecondPause | src/DbExtensions/DbCommand/NonQueryWithRetry.cs:52 | budget 5 with an always-failing call, cancelled during the second pause: 2 calls, pauses [2000, 4000], cancelled |
| LoopRetry.TwoAttemptsScenario | src/DbExtensions/DbCommand/NonQueryWithRetry.cs:20-31 | budget 2 with fail, fail, then 42: the second exception is rethrown after 2 calls and pauses [2000, 4000]; 42 is never reached |
| ScalarWithRetry.ExecuteScalarWithRetry | src/DbExtensions/DbCommand/ScalarWithRetry.cs:21-35 | the blocking wrapper (default budget 1) behaves as `Expected` with no cancellation, so it returns or rethrows |
| ScalarWithRetry.ExecuteScalarWithRetryAsync | src/DbExtensions/DbCommand/ScalarWithRetry.cs:45-59 | the awaitable wrapper behaves as `Expected` with the token; when cancelled, the last call made is the one before the cancelled pause |
| ScalarWithRetry.DefaultCallOnFailingCommand | src/DbExtensions/DbCommand/ScalarWithRetry.cs:21 | a call that uses the default budget against a failing command makes one call and one 2 s pause, then rethrows |
| GetReaderWithRetry.ExecuteReaderWithRetry | src/DbExtensions/DbCommand/GetReaderWithRetry.cs:20-34 | the blocking reader wrapper behaves as `Expected` over `ExecuteReader(behavior)`, returning or rethrowing |
| GetReaderWithRetry.ExecuteReaderWithRetryAsync | src/DbExtensions/DbCommand/GetReaderWithRetry.cs:46-61 | the awaitable reader wrapper behaves as `Expected` with the token; when cancelled, it stops at that pause |
| GetReaderWithRetry.SameBehaviorEveryCall | src/DbExtensions/DbCommand/GetReaderWithRetry.cs:26 | every call uses the caller's unchanged `behavior`: the reader returned and the exception rethrown are those of `ExecuteReader(behavior)` |
| NonQueryWithRetry.ExecuteNonQueryWithRetry | src/DbExtensions/DbCommand/NonQueryWithRetry.cs:18-32 | the blocking wrapper returns the affected-row count or rethrows, exactly as `Expected` says |
| NonQueryWithRetry.ExecuteNonQueryWithRetryAsync | src/DbExtensions/DbCommand/NonQueryWithRetry.cs:42-56 | the awaitable wrapper behaves as `Expected` with the token; when cancelled, it stops at that pause |
| OpenConnectionWithRetry.EnsureOpenWithRetry | src/DbExtensions/DbConnection/OpenConnectionWithRetry.cs:19-36 | the state is read once, on entry: if it is open there, there is no `Open` call and no pause, whatever the budget; otherwise the run is the loop's run around `Open`, whatever states the connection would report later |
| OpenConnectionWithRetry.EnsureOpenWithRetryAsync | src/DbExtensions/DbConnection/OpenConnectionWithRetry.cs:46-63 | the same for the awaitable form, with a default budget of 1 and the token |
| OpenConnectionWithRetry.DefaultAsyncCallOnFailingOpen | src/DbExtensions/DbConnection/OpenConnectionWithRetry.cs:46 | the default awaitable call on a closed connection whose `Open` fails makes one call and one 2 s pause, then rethrows |
| ConnectionExtensions.EnsureOpenRecursive | src/DbExtensions/DbConnection/DbConnectionExtensions.cs:41-56 | the private recursive method as written (its contract is stated by the lemmas below) |
| ConnectionExtensions.ArgumentsNeverChange | src/DbExtensions/DbConnection/DbConnectionExtensions.cs:54 | every entry receives the first entry's (retryAttempts, attemptNumber), so every pause has the same length; a rethrow needs retryAttempts <= 0 |
| ConnectionExtensions.NoBudgetNoRetry | src/DbExtensions/DbConnection/DbConnectionExtensions.cs:51 | with retryAttempts <= 0: no pause, at most one `Open` call, and its exception is rethrown |
| ConnectionExtensions.PositiveBudgetNeverGivesUp | src/DbExtensions/DbConnection/DbConnectionExtensions.cs:51-54 | with retryAttempts > 0, a connection that never opens is retried for as long as there is fuel, one call and one pause per entry |
| ConnectionExtensions.ReturnsFirstSuccess | src/DbExtensions/DbConnection/DbConnectionExtensions.cs:45-56 | with a positive budget, an `Open` that succeeds on entry j, after j failures on a connection not yet open whose pauses were not cancelled, ends the run there: returned, after j + 1 calls and j pauses, whether or not a token is given |
| ConnectionExtensions.StateRecheckedOnEveryEntry | src/DbExtensions/DbConnection/DbConnectionExtensions.cs:43 | the state is read on every entry: found open on entry j, after j failures whose pauses were not cancelled, the run returns after j calls and j pauses, whether or not a token is given |
| ConnectionExtensions.CancelledAtItsPause | src/DbExtensions/DbConnection/DbConnectionExtensions.cs:118-121 | the token is honoured: with a positive budget, a run that fails on entries k..k+c reaches the pause of entry k+c and, cancelled there, ends Cancelled after c+1 calls and c+1 pauses |
| ConnectionExtensions.CancelEndsAtItsPause | src/DbExtensions/DbConnection/DbConnectionExtensions.cs:120 | a cancelled run ends at the pause of entry `cancelAt`, the last entry |
| ConnectionExtensions.DefaultOverloadNeverThrows | src/DbExtensions/DbConnection/DbConnectionExtensions.cs:25-28 | the no-budget overload (budget 1) never rethrows on a connection that never opens; it pauses 2 s per entry |
| ConnectionExtensions.EnsureOpen | src/DbExtensions/DbConnection/DbConnectionExtensions.cs:17-20 | budget 0: no pause; an open connection gets no `Open` call; otherwise exactly one call, which returns if it succeeds and whose exception is rethrown if it fails |
| ConnectionExtensions.EnsureOpenWithRetry | src/DbExtensions/DbConnection/DbConnectionExtensions.cs:25-39 | default budget 1 and first attempt 1: every entry gets (retryAttempts, 1), every pause is 2000 ms, and a rethrow needs retryAttempts <= 0 |
| ConnectionExtensions.EnsureOpenAsync | src/DbExtensions/DbConnection/DbConnectionExtensions.cs:63-66 | budget 0 through the awaitable overload: no pause; an open connection gets no `OpenAsync` call; otherwise exactly one call, which returns if it succeeds and whose exception is rethrown if it fails |
| ConnectionExtensions.EnsureOpenWithRetryAsync | src/DbExtensions/DbConnection/DbConnectionExtensions.cs:71-106 | the four awaitable overloads: constant arguments, 2000 ms pauses, a rethrow only when retryAttempts <= 0; the run ends Cancelled exactly when it reaches the pause of entry `cancelAt`, which is then its last entry; a run that finds the connection open, or whose `OpenAsync` succeeds, before any cancelled pause returns |
| ConnectionExtensions.EnsureOpenRecursiveFixed | src/DbExtensions/DbConnection/DbConnectionExtensions.cs:108-123 | the recursive method with the budget really decremented (its contract is stated by FixedGivesUp) |
| ConnectionExtensions.FixedGivesUp | src/DbExtensions/DbConnection/DbConnectionExtensions.cs:121 | the corrected recursion always ends after at most retryAttempts+1 calls, with pauses DelayMs(attemptNumber + i); a connection that never opens gets exactly max(retryAttempts, 0) + 1 calls, then the last exception |
| CommandExtensions.ExecuteReaderRecursive | src/DbExtensions/DbCommandExtensions.cs:29-42 | the private recursive reader method as written (its contract is stated by the lemmas below) |
| CommandExtensions.ArgumentsNeverChange | src/DbExtensions/DbCommandExtensions.cs:40 | every entry receives the first entry's arguments, so every pause has the same length; a rethrow needs retryAttempts <= 0; every call but the last failed, and the run returns the last call's reader or rethrows its exception |
| CommandExtensions.ReturnsFirstSuccess | src/DbExtensions/DbCommandExtensions.cs:31-33 | a success on any call returns that reader at once, after that many calls and one pause per earlier failure |
| CommandExtensions.NoBudgetNoRetry | src/DbExtensions/DbCommandExtensions.cs:37 | with retryAttempts <= 0: one call, no pause, and its reader is returned or its exception rethrown |
| CommandExtensions.PositiveBudgetNeverGivesUp | src/DbExtensions/DbCommandExtensions.cs:37-40 | with retryAttempts > 0, an always-failing command is retried for as long as there is fuel |
| CommandExtensions.ExecuteReaderWithRetryAsync | src/DbExtensions/DbCommandExtensions.cs:14-27 | both public overloads: every entry gets (retryAttempts, 1), every pause is 2000 ms, and a rethrow needs retryAttempts <= 0; a returned reader is the last call's, and every earlier call failed |
| CommandExtensions.DefaultOverloadNeverThrows | src/DbExtensions/DbCommandExtensions.cs:14-17 | the overload without a budget never rethrows on an always-failing command; it pauses 2 s per entry |
| CommandExtensions.ExecuteReaderRecursiveFixed | src/DbExtensions/DbCommandExtensions.cs:29-42 | the recursive reader method with the budget really decremented (its contract is stated by FixedClosedForm) |
| CommandExtensions.FixedClosedForm | src/DbExtensions/DbCommandExtensions.cs:39-40 | the corrected recursion with budget M makes at most M+1 calls: it returns the first success after one pause per earlier failure, or rethrows the (M+1)-th exception after M pauses; entry i gets (M-i, a+i) |
| CommandExtensions.FixedMatchesLoop | src/DbExtensions/DbCommandExtensions.cs:40 | the corrected recursion with budget N ends like the retry loop with budget N+1, after the same calls and pauses, minus the loop's extra pause before a rethrow |
| LegacyCommandExtensions.ExecuteReaderRecursive | DbExtensions/DbCommandExtensions.cs:15-28 | the older recursive reader method as written, with an uncapped pause (its contract is stated by the lemmas below) |
| LegacyCommandExtensions.ArgumentsNeverChange | DbExtensions/DbCommandExtensions.cs:26 | every entry receives the first entry's arguments, so every uncapped pause has the same length; a rethrow needs retryAttempts <= 0; every call but the last failed, and the run returns the last call's reader or rethrows its exception |
| LegacyCommandExtensions.ReturnsFirstSuccess | DbExtensions/DbCommandExtensions.cs:17-19 | a success on any call returns that reader at once, after that many calls and one pause per earlier failure |
| LegacyCommandExtensions.NoBudgetNoRetry | DbExtensions/DbCommandExtensions.cs:23 | with retryAttempts <= 0: one call, no pause, and its reader is returned or its exception rethrown |
| LegacyCommandExtensions.PositiveBudgetNeverGivesUp | DbExtensions/DbCommandExtensions.cs:23-26 | with retryAttempts > 0, an always-failing command is retried for as long as there is fuel, with the same arguments each time |
| LegacyCommandExtensions.ExecuteReaderWithRetryAsync | DbExtensions/DbCommandExtensions.cs:10-13 | starts at attempt number 1, which never changes, so every uncapped pause is 2000 ms; a rethrow needs retryAttempts <= 0; a returned reader is the last call's, and every earlier call failed |
| LegacyCommandExtensions.ExecuteReaderRecursiveFixed | DbExtensions/DbCommandExtensions.cs:15-28 | the older recursive method with the budget really decremented (its contract is stated by FixedGivesUp) |
| LegacyCommandExtensions.FixedGivesUp | DbExtensions/DbCommandExtensions.cs:25-26 | the corrected recursion ends after at most retryAttempts+1 calls; each uncapped pause doubles the previous one; an always-failing command gets max(retryAttempts, 0) + 1 calls, then the last exception |

## Left out

- Real time: `Thread.Sleep`, `Task.Delay(...).Wait()` and `await Task.Delay` are not modelled as waiting. Each pause is a millisecond value appended to the run's pause log.
- `Math.Pow` on doubles is replaced by exact integer powers of two. That is exact for every exponent the wrappers reach.
- Async scheduling and the internals of `CancellationToken` are left out. Cancellation is the `cancelAt` oracle. A token that fires during the wrapped call is modelled as that call failing. A pause that follows is then a cancelled pause. With a budget of 0 or less in `DbConnectionExtensions.cs`, no pause follows and the exception is rethrown as the call's own failure.
- Exception types and identity: exceptions are opaque values. The model shows that the rethrown value is the one the last call produced.
- 32-bit overflow of `attempt` is not modelled. With `retryAttempts == int.MaxValue`, `attempt++` would wrap after about 2^31 failures, so the model uses unbounded integers.
- `Backoff.UncappedDelayMs` does not model 32-bit overflow either. In .NET, `(int)Math.Pow(2, n) * 1000` overflows from n = 22 on. The as-written older wrapper only ever uses n = 1. Only `LegacyCommandExtensions.ExecuteReaderRecursiveFixed` could reach such exponents.
- Stack overflow from unbounded recursion is not modelled. The recursive wrappers take a `fuel` bound instead. `Unfinished` means "still retrying after `fuel` entries".
- The private sync and async recursive `EnsureOpenWithRetry` methods in `DbConnectionExtensions.cs` are modelled by one function. The blocking form passes no cancellation.
- The `NET5_0_OR_GREATER` and `NETSTANDARD` copies in `ScalarWithRetry.cs` have identical bodies. They are modelled once. Nullable annotations are left out.
- The column readers `GetNullables.cs` and `GetNullablesAsync.cs`, and the example programs, are not part of this model. They contain no retry logic.
- `GetReaderWithRetry.SameBehaviorEveryCall`: `CommandBehavior` is modelled as a plain enumeration, not as a set of flags.

## Findings

| source | as written | input that shows it | evidently intended | confidence | as-written member | corrected member |
|---|---|---|---|---|---|---|
| src/DbExtensions/DbConnection/DbConnectionExtensions.cs:54 | the retry passes `retryAttempts--, attemptNumber++` (line 121 does the same). Both are postfix operators on by-value parameters, so the recursive call gets the same budget and attempt number | a closed connection whose `Open` always fails, with `retryAttempts = 1` (the default): it retries forever, 2 s apart | each retry spends one unit of budget and raises the exponent: at most retryAttempts + 1 calls, then rethrow | high; not executed | ConnectionExtensions.PositiveBudgetNeverGivesUp | ConnectionExtensions.FixedGivesUp |
| src/DbExtensions/DbCommandExtensions.cs:40 | the same `retryAttempts--, attemptNumber++` in the recursive reader wrapper | a command whose `ExecuteReaderAsync` always fails, through the overload without a budget: it retries forever, 2 s apart | at most retryAttempts + 1 calls, pauses 2^1, 2^2, … s, then rethrow | high; not executed | CommandExtensions.PositiveBudgetNeverGivesUp | CommandExtensions.FixedMatchesLoop |
| DbExtensions/DbCommandExtensions.cs:26 | the same `retryAttempts--, attemptNumber++` in the older copy | a command that always fails, with `retryAttempts = 3`: it retries forever, and the uncapped pause stays 2 s | at most retryAttempts + 1 calls, with pauses that double each time | high; not executed | LegacyCommandExtensions.PositiveBudgetNeverGivesUp | LegacyCommandExtensions.FixedGivesUp |
