# Number-theory kernel and chunk dispatch of an MPI totient coursework

This project models the two sequential parts of the MPI coursework in Dafny and proves properties about them.

The first part, `math.dfy` (module `NumberTheory`), models `MPI/src/math.c`:

- `initPrimeCache` runs a Sieve of Eratosthenes over a fixed boolean table. Here it is modelled as `InitPrimeCache` over an `array<bool>`, and the C constant `nPrimeCache` is that array's `Length`.
- `gcf` first tests a prime shortcut and then runs Euclid's loop.
- `eulerTotient` counts the `i` in `[1, n)` for which `gcf(n, i) == 1`.

The methods keep the source's loops. Each one is proved against a specification function:

- `Gcd` is Euclid's recurrence on naturals. It is shown to be the greatest common divisor: it divides both operands, and every common divisor divides it.
- `IsPrime` is primality by divisors.
- `Totient` is the count of coprime `i`. It is shown to equal the cardinality of `{ i | 1 <= i < n, Gcd(n, i) == 1 }`.

The second part, `dispatch.dfy` (module `Dispatch`), models `MPI/src/main.c` with the MPI calls removed.

The controller is a class, `Controller`:

- `cursor` is its first loop's counter.
- `terminationsSent` counts the second loop's replies.
- A ghost `log` records each request's rank and the reply sent to it.
- `HandleRequest(rank)` answers one request. `rank` is any value, because a receive from any source can deliver the requests in any order.

`RunController` feeds a whole sequence of requester ranks to a fresh controller. `ProcessChunk` models the worker's range arithmetic (line 70) and its inner loop. `RunWorker` models the worker's `while (1)` loop over the replies it receives. `SingleWorkerRun` puts the controller and one worker together.

The partition results are proved for any `min` and `max`:

- Laid end to end, the issued chunks are exactly `min, min + 1, …, max`.
- Every value lies in exactly one chunk.
- There are `ceil((max - min + 1) / 3)` chunks.
- The `k`-th reply depends only on `k`, not on which rank asked.

The model follows what the code does:

- The chunk size is 3, and `main` uses `min = 0, max = 10`.
- The worker throws away the result of `calculate`, which is the identity. No code computes partial sums or a reduction.
- The termination loop runs once per rank `1 .. processes - 1`, and zero times when `processes <= 1` (`TerminationsMatchLoop`). There is no sequential fallback.
- The comparisons in `gcf`'s shortcut are strict. So `gcf(n, n)` skips the shortcut and returns `n` (`GcfValue`).
- With a correct table and natural-number operands, the shortcut gives a result other than the gcd only when one operand is 0 and the other is a cached prime `p`. Both `gcf(p, 0)` and `gcf(0, p)` return 1, while the gcd is `p` (`GcfOfPrimeAndZero`). `eulerTotient` never makes either call, because it calls `gcf(n, i)` with `1 <= i < n` (`GcfValue`, `ShortcutAnswersGcd`).

## Model

| member | source | states |
|---|---|---|
| `NumberTheory.InitPrimeCache` | MPI/src/math.c:17-31 | After the three loops, entry `i` of the table is true iff `i` is prime, for every index. In particular entries 0 and 1 are false. The array keeps its length. |
| `NumberTheory.NewPrimeCache` | MPI/src/math.c:10-12 | Allocates a fresh table of `100 * 1024` entries and sieves it. The result classifies every index correctly. |
| `NumberTheory.SurvivorsArePrimes` | MPI/src/math.c:24-26 | Once every `k` in `[2, n)` has struck out its multiples `2k, 3k, …`, an index `j` in `[2, n)` survives iff `j` is prime. |
| `NumberTheory.PrimesBelowThirty` | MPI/src/math.c:17-31 | The primes below 30 are exactly {2, 3, 5, 7, 11, 13, 17, 19, 23, 29}. |
| `NumberTheory.MarkedBelowThirty` | MPI/src/math.c:17-31 | Running the sieve on a 30-entry table marks exactly {2, 3, 5, 7, 11, 13, 17, 19, 23, 29}. |
| `NumberTheory.CoprimeCount` | MPI/src/math.c:62-64 | Counts the `i` in `[1, k)` coprime to `n`. The count is 0 for `k <= 1` and at most `k - 1` otherwise. |
| `NumberTheory.Totient` | MPI/src/math.c:60-66 | Totient of `n` is 0 for `n <= 1` and at most `n - 1` otherwise. |
| `NumberTheory.GcdDividesBoth` | MPI/src/math.c:46-52 | The value Euclid's loop ends with divides both operands. |
| `NumberTheory.CommonDivisorDividesGcd` | MPI/src/math.c:46-52 | Every common divisor of `a` and `b` divides that value, so it is the greatest common divisor. |
| `NumberTheory.GcdCommutes` | MPI/src/math.c:46-52 | The loop's result does not depend on the order of the operands. |
| `NumberTheory.GcdWithSmallerThanPrime` | MPI/src/math.c:41-43 | A prime `p` and any `b` with `1 <= b < p` have gcd 1, in either order. This is why the shortcut can answer 1. |
| `NumberTheory.TakesShortcut` | MPI/src/math.c:42 | The shortcut is taken iff the operands differ and the larger of the two is an index of the table whose entry is true. |
| `NumberTheory.ShortcutAnswersGcd` | MPI/src/math.c:41-43 | With a correct table and both operands at least 1, taking the shortcut implies that the gcd really is 1. |
| `NumberTheory.GcfValue` | MPI/src/math.c:39-53 | With a correct table and both operands at least 1, `gcf` returns the true gcd. For every table: `gcf(n, n) == n`, because the strict comparisons skip the shortcut, and `gcf(a, 1) == 1` for `a >= 1`. |
| `NumberTheory.GcfOfPrimeAndZero` | MPI/src/math.c:42-43 | As written, a cached prime `p` paired with 0, in either order, takes the shortcut and gives 1, while the gcd is `p`. |
| `NumberTheory.Gcf` | MPI/src/math.c:39-53 | Returns 1 when the strictly larger operand is a cached prime, and Euclid's gcd otherwise. The Euclid loop keeps the gcd of its two variables unchanged. With a correct table and positive operands the result is `Gcd(a, b)`. |
| `NumberTheory.CoprimeCountIsCardinality` | MPI/src/math.c:62-64 | The running count equals the size of the set of `i` in `[1, k)` with `Gcd(n, i) == 1`. |
| `NumberTheory.TotientCountsCoprimes` | MPI/src/math.c:60-66 | The totient of `n` is the number of `i` in `[1, n)` coprime to `n`. |
| `NumberTheory.AllBelowPrimeAreCoprime` | MPI/src/math.c:63-64 | For a prime `p` and `1 <= k <= p`, every `i` in `[1, k)` is counted. |
| `NumberTheory.TotientOfPrime` | MPI/src/math.c:42-43 | The totient of a prime `p` is `p - 1`. |
| `NumberTheory.EulerTotient` | MPI/src/math.c:60-66 | With a sieved table, the counting loop returns `Totient(n)`. This includes 0 for every `n <= 1`. |
| `Dispatch.ChunkEnd` | MPI/src/main.c:70 | The chunk end never exceeds `max`. The chunk has fewer than `TASK_PACKET_SIZE` values past its start. The end is either `max` or `start + 2`. When `start <= max`, the end is at least `start`. |
| `Dispatch.ChunkCount` | MPI/src/main.c:27 | The number of chunks is 0 when `min > max`, and `ceil((max - min + 1) / 3)` otherwise. |
| `Dispatch.ChunkStarts` | MPI/src/main.c:27 | Every start the first loop issues lies in `[from, max]`, and the starts strictly increase, so none is issued twice. |
| `Dispatch.ChunkStartsShape` | MPI/src/main.c:27-36 | The first loop issues exactly `ChunkCount` starts. The `k`-th start is `min + 3k`. |
| `Dispatch.CursorWithinRange` | MPI/src/main.c:27 | The cursor `min + 3k` passes the loop test iff fewer than `ChunkCount` chunks have been issued. |
| `Dispatch.ChunksCoverRange` | MPI/src/main.c:27-73 | The issued chunks `[start, ChunkEnd(start, max)]`, one after another, are exactly `min, …, max`. So there is no gap, no overlap, and the order is increasing. |
| `Dispatch.ValueInExactlyOneChunk` | MPI/src/main.c:27-70 | Each `x` in `[min, max]` lies in the chunk with index `(x - min) / 3`, and in no other chunk. |
| `Dispatch.TerminateIsNeverAStart` | MPI/src/main.c:66-67 | For `min >= 0`, no issued start equals `SIGNAL_TERMINATE`. |
| `Dispatch.TerminateIsAStartIff` | MPI/src/main.c:27-36 | For every range, `SIGNAL_TERMINATE` (-1) is an issued start iff `min <= -1 <= max` and 3 divides `-1 - min`. So `min >= 0` (main uses 0) is enough to keep the signal apart from the starts, but not needed: `min = -2` never issues -1, while `min = -4` does. |
| `Dispatch.TerminateCollidesFromMinusOne` | MPI/src/main.c:14 | For `min = -1`, the first start equals the stop signal. |
| `Dispatch.DefaultRangeChunks` | MPI/src/main.c:88 | For `min = 0, max = 10` the chunks are `[0,2]`, `[3,5]`, `[6,8]` and `[9,10]`. |
| `Dispatch.TerminationLoopRanks` | MPI/src/main.c:39 | The second loop's counter takes exactly the values `i` with `1 <= i < processes`. |
| `Dispatch.TerminationsMatchLoop` | MPI/src/main.c:39-48 | The number of termination replies, `TerminationsDue(processes)`, is the number of iterations of the second loop: `processes - 1`, or 0 when `processes <= 1`. |
| `Dispatch.Schedule` | MPI/src/main.c:22-51 | The reply sequence has `ChunkCount + TerminationsDue` entries. The first `ChunkCount` entries are `min + 3k`, and the rest are `SIGNAL_TERMINATE`. |
| `Dispatch.Controller.constructor` | MPI/src/main.c:22-27 | The cursor starts at `min`, no terminations have been sent, and the log is empty. |
| `Dispatch.Controller.FinishedWhenScheduleSent` | MPI/src/main.c:27-48 | The controller leaves both loops iff it has sent every reply of the schedule. |
| `Dispatch.Controller.HandleRequest` | MPI/src/main.c:27-48 | While the cursor is `<= max`, it replies with the cursor and advances it by 3. Afterwards it replies `SIGNAL_TERMINATE` and counts the termination. The reply goes to the rank that asked. No termination comes before the last chunk. The `n`-th reply is the schedule's `n`-th entry, whatever the rank. |
| `Dispatch.RunController` | MPI/src/main.c:22-51 | For any sequence of requester ranks of the right length: reply `k` goes to requester `k`. The first `ChunkCount` replies are `min, min + 3, …`. The remaining `processes - 1` replies are `SIGNAL_TERMINATE`. |
| `Dispatch.Calculate` | MPI/src/main.c:16-20 | `calculate` returns its input unchanged. |
| `Dispatch.ProcessChunk` | MPI/src/main.c:70-73 | `calculate` runs on each integer in `[taskMin, ChunkEnd(taskMin, max)]` exactly once, in increasing order. Since `calculate` is the identity, its results are exactly that interval. |
| `Dispatch.RunWorker` | MPI/src/main.c:53-75 | The worker sends one request per reply it reads. It stops at the first `SIGNAL_TERMINATE`, and processes the chunks of all earlier replies, in order. |
| `Dispatch.SingleWorkerRun` | MPI/src/main.c:22-75 | With one worker (`processes == 2`) and `min >= 0`, the worker processes exactly `min, …, max`. It sends `ChunkCount + 1` requests. |

## Left out

- The MPI calls are not modelled: `MPI_Init`, `MPI_Send`, `MPI_Recv` with `MPI_ANY_SOURCE`, `MPI_Comm_size` / `MPI_Comm_rank` and `MPI_Finalize`. They are transport and process start-up. A receive from any source is modelled as an arbitrary rank argument.
- Concurrency is not modelled: interleaving of several workers, blocking, and deadlock. With more than one worker, the model proves only that the replies and chunks partition the range, not how they are spread over the workers.
- `sleep(1)` in `calculate` and all `printf` logging are not modelled. They have no effect on results.
- The `main` bootstrap at `MPI/src/main.c:77-98` is not modelled. Only its constants `min = 0, max = 10` are used.
- C integer widths are not modelled: `int` and `long` are unbounded here, so overflow of `i*2` or `taskMin+TASK_PACKET_SIZE-1` is not captured.
- `NumberTheory.Gcf` takes natural numbers, so C's behaviour on negative operands is not modelled. C's `%` truncates toward zero, so a negative operand can give a negative result: `gcf(-5, 4)` returns -1. The shortcut reads `primeCache` out of bounds only when both operands are negative. `eulerTotient` only calls `gcf(n, i)` with `1 <= i < n`, so it never meets these cases.
- `Controller.HandleRequest` requires that the controller has not finished. The C controller stops receiving after its two loops, so it never handles a further request.
- `NumberTheory.EulerTotient` requires a sieved table. This models the rule that `initPrimeCache` runs before any totient computation.
- `NumberTheory.InitPrimeCache` requires at least two entries, because the source writes `primeCache[0]` and `primeCache[1]`.
- `../include/math.h` is not part of this model. It only declares the functions.
