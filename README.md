# Broker connection retry policy

This project models `ConnectToRabbit`, the one piece of the rmqtools package
with logic of its own: it dials the RabbitMQ broker in a loop, counts failed
dials, sleeps `counts²` seconds after each of the first five failures, gives up on the sixth
consecutive failure with that dial's error, and returns the first connection
it obtains.

The two effects of the loop are abstracted:

- **Dial** is an oracle `dial: nat -> DialOutcome<C, E>`: `dial(i)` is the
  outcome of the (i+1)-th dial, `Dialled(conn)` or `Refused(err)`. The real
  dial always produces one of the two, so the oracle is total and the method
  needs no precondition. Connection and error are type parameters.
- **Sleep** appends its duration, in whole seconds, to the trace `sleeps`.

The Go pair `(conn, nil)` is `Connected(conn)`, and `(nil, err)` is
`GaveUp(err)`.

`Connect.ConnectToRabbit` is the loop itself, written as an imperative
method. Its loop invariants tie `counts` to the dials made so far. It is
proved equal to `Connect.Expected`, a declarative reference definition built
from the index of the first successful dial (`Connect.FirstSuccess`) and the
schedule `Connect.Backoffs`. The lemmas state the policy's properties about
`Expected`.

The back-off is quadratic, not exponential: the loop squares the failure
count (connect.go:32).

## Model

| member | source | states |
|---|---|---|
| Connect.ConnectToRabbit | connect.go:11-39 | 1 to 6 dials; one sleep fewer than dials; k-th sleep is k² seconds; every dial but the last failed; success returns the last dial's connection; gives up iff all six dials fail, then with the sixth dial's error; the loop invariant keeps `counts` equal to `FailedDials`, and on exit `FailedDials` is `dials`, or `dials - 1` on success; the run equals `Expected` |
| Connect.Expected | connect.go:11-39 | the run the policy prescribes (stop at the first success, or give up after six failures with the sixth error): between one and six dials, the sleeps are exactly `Backoffs(dials - 1)`, and giving up always takes six dials |
| Connect.Backoffs | connect.go:32-34 | the sleeps after k failures are k values, the i-th being (i+1)² seconds |
| Connect.FirstSuccess | connect.go:16-25 | the index of the first successful dial among the first six, or 6: all dials before it failed, and it succeeded |
| Connect.FirstSuccessIs | connect.go:16-25 | the first successful dial is uniquely determined by the earlier dials failing and it succeeding |
| Connect.RunShape | connect.go:16-36 | attempt ceiling of six dials; the sleeps are one fewer than the dials and form a prefix of [1, 4, 9, 16, 25] |
| Connect.GiveUpExactlyOnSixthFailure | connect.go:17-30 | the call gives up iff all six dials fail; it then made six dials and returns the sixth dial's error unchanged |
| Connect.FirstSuccessReturned | connect.go:21-25 | when the n-th dial is the first success, its connection is returned after n dials and the sleeps 1², ..., (n-1)² |
| Connect.LaterDialsIgnored | connect.go:21-29 | outcomes of dials after the run decided cannot change the run, so nothing is dialled after success or give-up |
| Connect.BackoffsPrefix | connect.go:32-34 | a shorter back-off schedule is a prefix of a longer one |
| Connect.FullSchedule | connect.go:27-34 | the complete schedule is 1, 4, 9, 16, 25 seconds |
| Connect.BackoffsIncrease | connect.go:32 | each sleep is strictly longer than the previous one; there is no cap |
| Connect.TotalBackoff | connect.go:32-34 | after k failures the total time slept is k(k+1)(2k+1)/6 seconds |
| Connect.FullFailureWaits55 | connect.go:27-34 | when every dial fails there are six dials and five sleeps, totalling 55 seconds, with none after the sixth failure |

## Left out

- The network dial `amqp.Dial` and the broker URL: a dial is only its outcome, supplied by the oracle.
- Wall-clock time: `time.Sleep` is a recorded duration in whole seconds, not a delay. `time.Duration` counts nanoseconds; the model counts seconds.
- Floating point: `math.Pow(float64(counts), 2)` is the integer `counts * counts`. It is only evaluated for `counts` from 1 to 5, where the float result is exact.
- The 64-bit width of `counts`: it never exceeds 6, so no wrap-around can occur.
- Logging with `fmt.Printf`, `fmt.Println` and `log.Println`.
- consumer.go (`Listen`): goroutine-per-message dispatch and blocking on a channel that is never sent to. These are concurrency and broker I/O. The `QueueBind` result is discarded there, so the error check after each bind re-tests an earlier nil error and bind failures never abort the call.
- emitter.go and emitter/emitter.go: open a channel, publish, close. These are pass-through calls to the AMQP client.
- event/event.go: fixed-argument exchange and queue declarations. Their meaning lives in the broker.
- messageBroker.go: JSON marshalling, construction of emitters and consumers, and errors that are printed and dropped. This is library and I/O glue.
