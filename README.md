# Calculator gRPC server, modelled in Dafny

This project models the request handlers of a small gRPC calculator
service written in Go (`server/server.go`). The service has five
operations, and each one exercises a different gRPC interaction pattern:

- `Sum`: unary. It returns the sum of two numbers.
- `SumWithDeadline`: unary. It looks at its context before each of five one-second waits and gives up when the client has cancelled.
- `PrimeNumberDecomposition`: server streaming. It sends one message per prime factor of the request number.
- `FindMax`: bidirectional streaming. After each number it receives, it sends the running maximum.
- `Square`: unary. It refuses negative numbers with `InvalidArgument`.

Modules:

- `Base` (`base.dfy`): Go's `int32` as a newtype, two's-complement wrap-around, gRPC status codes, the result of a unary handler, `ctx.Err()` values, and how a streaming handler ends.
- `Calculatorpb` (`calculatorpb.dfy`): the request and response messages.
- `Streams` (`streams.dfy`): the server's side of a stream. The client's messages are a finite sequence. `Recv` consumes it in order and then keeps returning the same end marker, either `io.EOF` or a transport error. `Send` appends to the sequence of sent messages.
- `Factorization` (`factorization.dfy`): the trial-division loop as a function of the loop state `(n, k)`, with lemmas proving that it produces the prime factorisation.
- `FindMaxSpec` (`findmax_spec.dfy`): the running-maximum fold, with lemmas proving what each response carries.
- `Server` (`server.dfy`): the handlers.

Handlers that loop and change state are methods with loop invariants. `PrimeNumberDecomposition` works on `int32` variables `n` and `k`, so the proof also shows that `n / k`, `n % k` and `k++` never overflow. Unary handlers are functions.

Some of the code's behaviour may be unexpected, and the model follows the code in each case:

- `FindMax` starts its accumulator at 0. When every number received is negative, every response is 0, not the largest number received.
- `Square`'s error message is the constant "Expect a positive number". It does not carry the rejected value. Zero is accepted.
- A receive error in `FindMax` (and in `Average`) calls `log.Fatalf`, which ends the whole server process. It is not reported as a status to the one call. The model returns `ProcessExit`.
- `SumWithDeadline` compares `ctx.Err()` only with `context.Canceled`. An expired deadline (`context.DeadlineExceeded`) does not stop it.
- Neither streaming handler looks at its context. After the client has gone, `PrimeNumberDecomposition` keeps dividing (and sleeping one second per factor) with its `Send` errors ignored, and `FindMax` keeps reading until its stream ends. The model has no context input for either handler.

## Model

| member | source | states |
|---|---|---|
| `Base.Wrap32` | server/server.go:26 | The result differs from the exact sum by a multiple of 2^32, and equals it when the sum fits in int32 (Go's int32 addition). |
| `Server.Sum` | server/server.go:23-30 | Sum always succeeds. Its result is the two numbers' sum modulo 2^32, and exactly their sum when that fits in int32. |
| `Server.SumWithDeadline` | server/server.go:33-49 | It fails if and only if some poll sees `context.Canceled`, and then the status is `Canceled`. It stops at the first such poll: fewer than 5 seconds are slept and no earlier poll saw a cancellation. Otherwise it returns exactly what `Sum` returns, after 5 seconds. `DeadlineExceeded` never causes an early return. |
| `Server.PrimeNumberDecomposition` | server/server.go:52-72 | It returns nil. The numbers carried by the stream's messages become the earlier ones followed by exactly `PrimeFactors(number)`. The int32 loop terminates and never overflows. |
| `Server.ResultsInjective` | server/server.go:61-63 | Two sequences of responses that carry the same numbers are equal. So the numbers sent determine the messages sent. |
| `Server.FindMax` | server/server.go:103-136 | It receives every pending request. The responses it appends are exactly `Replies(pending)`, one per request in order. It returns nil at `io.EOF`, and a receive error ends the process. The proof's loop invariant says that the responses sent so far, followed by those still owed for the unread requests from the current accumulator, are the responses for all requests. |
| `Server.Square` | server/server.go:139-151 | The result is an error if and only if the number is negative, and the error code is `InvalidArgument`. On success the value handed to the square root is the request's number, which is non-negative. |
| `Streams.BidiStream.Recv` | server/server.go:108-118 | It returns the next unread client message, in order. Once the input is exhausted it returns `io.EOF` (or the transport error) again on every call and changes nothing. |
| `Streams.BidiStream.Send` | server/server.go:126-128 | A send appends exactly one response and leaves the receive position unchanged. |
| `Streams.SendStream.Send` | server/server.go:61-63 | A send appends exactly one message to the stream. |
| `Factorization.CandidateBound` | server/server.go:57-69 | While `n > 1`, the candidate `k` is at most `n`. So `k++` cannot overflow, and the loop measure `(n, n - k)` is bounded. |
| `Factorization.QuotientKeepsNoFactorBelow` | server/server.go:58-59 | After `n = n / k`, `n` is still at least 1 and strictly smaller, and no `d` with `2 <= d < k` divides it. |
| `Factorization.DivisorPassesIsPrime` | server/server.go:58-63 | Every `k` that is sent is prime, because nothing below `k` still divides `n`. |
| `Factorization.FactorizeProduct` | server/server.go:57-63 | For `n >= 1`, the values sent from loop state `(n, k)` multiply to `n`. |
| `Factorization.FactorizeShape` | server/server.go:55-69 | Every value sent from loop state `(n, k)` is prime and lies between `k` and `n`. The values are non-decreasing. |
| `Factorization.LoopStep` | server/server.go:57-69 | One iteration keeps the loop invariant. The invariant is: `2 <= k`; nothing below `k` divides `n`; the factors sent so far, followed by those still to come from `(n, k)`, are `PrimeFactors(N)`; and `n * Product(sent) == N`. Each iteration lowers `n`, or keeps `n` and lowers `n - k` while `k < n`. |
| `Factorization.LoopKeepsProduct` | server/server.go:55-63 | The loop keeps `n * Product(sent so far) == N`. |
| `Factorization.PrimeFactorsCorrect` | server/server.go:55-71 | For request number `N`, nothing is sent exactly when `N <= 1`. Otherwise the values sent are primes, at most `N`, non-decreasing, and their product is `N`. |
| `Factorization.FactorsOf120` | client/client.go:52-54 | The client's request, 120, is answered with 2, 2, 2, 3, 5. |
| `FindMaxSpec.FoldIsMaximum` | server/server.go:120-124 | Folding requests into an accumulator `acc` yields a value that is at least `acc` and at least every number folded in. That value is `acc` or one of those numbers. |
| `FindMaxSpec.PeakIsMaximum` | server/server.go:105-124 | The accumulator is at least 0 and at least every number received. It is 0 or one of those numbers. |
| `FindMaxSpec.PeakCharacterized` | server/server.go:105-124 | A value is the larger of 0 and every number received if and only if it equals the accumulator. |
| `FindMaxSpec.RepliesFromAt` | server/server.go:107-134 | From any starting accumulator, there is one response per request. Response `i` carries the accumulator after the first `i + 1` requests. |
| `FindMaxSpec.RepliesAt` | server/server.go:107-134 | There is exactly one response per request. Response `i` carries the accumulator after the first `i + 1` requests. |
| `FindMaxSpec.FoldGrows` | server/server.go:122-124 | Receiving more requests never lowers the accumulator. |
| `FindMaxSpec.RepliesNonDecreasing` | server/server.go:120-128 | The responses form a non-decreasing sequence. |
| `FindMaxSpec.NonPositiveInputsGiveZero` | server/server.go:105 | When no number received is positive, every response is 0. |
| `FindMaxSpec.ClientExample` | client/client.go:123-139 | The client's numbers 5, 10, 12, 3, 4 are answered with 5, 10, 12, 12, 12. |

## Left out

- The client (`client/client.go`) is left out. It dials, logs and runs two goroutines joined by a channel, and that concurrency is outside the model. It also never calls `CloseSend` on the `FindMax` stream, so the server would never see `io.EOF`.
- `main` is left out. It opens the listening socket and registers the service with gRPC.
- `Average` is left out. Its accumulator and result are `float32`, and with no requests it divides by `float32(0)`. Floating point is outside the model.
- Server.Square: the square-root value itself is not modelled. Only the accept/reject decision is, and on success the non-negative number handed to `math.Sqrt`.
- Server.Sum: the field types of `SumRequest` are not part of this model. They are assumed to be `int32`, like `PNDReuqest.Number` (server/server.go:55-58) and `SquareRequest.Num` (client/client.go:179-183), and wrap-around is modelled at that width.
- Server.FindMax: `FindMaxRequest.Num`'s type is not part of this model. It is assumed to be `int32`, so `int32(req.GetNum())` is the identity. If the field is wider, that conversion truncates, and the model does not capture the truncation.
- Server.FindMax: a failing `Send` (which calls `log.Fatalf`) is not modelled. In the model, sends always succeed.
- Server.PrimeNumberDecomposition: a failing `Send` is not modelled. The handler ignores that error anyway and keeps going.
- The `time.Sleep` calls have no effect in the model. `SumWithDeadline` counts the seconds it sleeps, and the wait in `PrimeNumberDecomposition` is dropped.
- Logging is left out.
- The values that `ctx.Err()` returns come from the caller as a sequence, one per iteration. The model does not say how a real context changes over time.
- The generated `calculatorpb` code and gRPC's own stream machinery are not part of this model. Streams are modelled as sequences.
