/** Connection establishment with bounded retry and quadratic back-off.

    The broker dial and the sleep are the two effects of the loop. The dial is
    an oracle: `dial(i)` is the outcome of the (i+1)-th dial, either a
    connection or an error, and the real dial always produces one of the two,
    so the oracle is a total function. A sleep is recorded by appending its
    duration, in whole seconds, to a trace that the method returns.
 */
module Connect {

  datatype Option<T> = None | Some(value: T)

  /** What one dial of the broker produced. */
  datatype DialOutcome<C, E> = Dialled(conn: C) | Refused(err: E)

  /** What the caller gets back: `Connected(c)` is the pair (c, nil),
      `GaveUp(e)` is the pair (nil, e). */
  datatype ConnectResult<C, E> = Connected(conn: C) | GaveUp(err: E)

  /** Everything observable about one call: the result, how many times the
      broker was dialled, and the sleeps taken between dials, in order. */
  datatype Run<C, E> = Run(result: ConnectResult<C, E>, dials: nat, sleeps: seq<nat>)

  /** The loop gives up once its failure counter exceeds 5, i.e. on the sixth
      consecutive failed dial; no call ever dials more often than this. */
  const MaxDials: nat := 6

  // ---------------------------------------------------------------------------
  // Reference definition of the retry policy
  // ---------------------------------------------------------------------------

  /** The sleeps taken after the first k failed dials: k-th sleep is k² seconds. */
  function Backoffs(k: nat): (r: seq<nat>)
    ensures |r| == k
    ensures forall i :: 0 <= i < k ==> r[i] == (i + 1) * (i + 1)
  {
    if k == 0 then [] else Backoffs(k - 1) + [k * k]
  }

  /** Index of the first dial, at or after `from`, that succeeds among the
      first MaxDials dials; MaxDials when every one of them fails. */
  function FirstSuccess<C, E>(dial: nat -> DialOutcome<C, E>, from: nat): (n: nat)
    requires from <= MaxDials
    ensures from <= n <= MaxDials
    ensures forall i :: from <= i < n ==> dial(i).Refused?
    ensures n < MaxDials ==> dial(n).Dialled?
    decreases MaxDials - from
  {
    if from == MaxDials || dial(from).Dialled? then from else FirstSuccess(dial, from + 1)
  }

  /** The run the retry policy prescribes for a given sequence of dial outcomes:
      stop at the first successful dial and hand back its connection, or, when
      all MaxDials dials fail, hand back the last dial's error; sleep k² seconds
      after the k-th failure unless it is the last one. */
  function Expected<C, E>(dial: nat -> DialOutcome<C, E>): (r: Run<C, E>)
    ensures 1 <= r.dials <= MaxDials
    ensures r.sleeps == Backoffs(r.dials - 1)
    ensures r.result.GaveUp? ==> r.dials == MaxDials
  {
    var n := FirstSuccess(dial, 0);
    if n < MaxDials then
      Run(Connected(dial(n).conn), n + 1, Backoffs(n))
    else
      Run(GaveUp(dial(MaxDials - 1).err), MaxDials, Backoffs(MaxDials - 1))
  }

  /** How many of the first n dials failed. */
  function FailedDials<C, E>(dial: nat -> DialOutcome<C, E>, n: nat): nat
  {
    if n == 0 then 0 else FailedDials(dial, n - 1) + (if dial(n - 1).Refused? then 1 else 0)
  }

  /** Total of a trace of sleep durations. */
  function Sum(s: seq<nat>): nat
  {
    if s == [] then 0 else Sum(s[..|s| - 1]) + s[|s| - 1]
  }

  // ---------------------------------------------------------------------------
  // The retry loop
  // ---------------------------------------------------------------------------

  /** Dials until a dial succeeds or the sixth consecutive dial fails. `counts`
      is the failure counter of the loop; `backOff` starts at one second and is
      overwritten with counts² before every sleep. */
  method ConnectToRabbit<C, E>(dial: nat -> DialOutcome<C, E>)
    returns (result: ConnectResult<C, E>, dials: nat, sleeps: seq<nat>)
    ensures 1 <= dials <= MaxDials
    ensures |sleeps| == dials - 1
    ensures forall k :: 0 <= k < |sleeps| ==> sleeps[k] == (k + 1) * (k + 1)
    ensures forall i :: 0 <= i < dials - 1 ==> dial(i).Refused?
    ensures result.Connected? ==> dial(dials - 1) == Dialled(result.conn)
    ensures result.GaveUp? <==> (forall i :: 0 <= i < MaxDials ==> dial(i).Refused?)
    ensures result.GaveUp? ==> dials == MaxDials && dial(MaxDials - 1) == Refused(result.err)
    ensures FailedDials(dial, dials) == if result.GaveUp? then dials else dials - 1
    ensures Run(result, dials, sleeps) == Expected(dial)
  {
    var counts := 0;
    var backOff := 1;
    var connection: Option<C> := None;
    dials, sleeps := 0, [];
    while true
      invariant counts == dials < MaxDials
      invariant counts == FailedDials(dial, dials)
      invariant forall i :: 0 <= i < dials ==> dial(i).Refused?
      invariant sleeps == Backoffs(counts)
      invariant connection == None
      decreases MaxDials - counts
    {
      var outcome := dial(dials);
      dials := dials + 1;
      if outcome.Refused? {
        counts := counts + 1;
      } else {
        connection := Some(outcome.conn);
        break;
      }

      if counts > 5 {
        result := GaveUp(outcome.err);
        FirstSuccessIs(dial, MaxDials);
        return;
      }

      backOff := counts * counts;
      sleeps := sleeps + [backOff];
    }
    result := Connected(connection.value);
    FirstSuccessIs(dial, dials - 1);
  }

  // ---------------------------------------------------------------------------
  // Properties of the retry policy
  // ---------------------------------------------------------------------------

  /** The first successful dial is determined by the dials before it having
      failed and it having succeeded. */
  lemma FirstSuccessIs<C, E>(dial: nat -> DialOutcome<C, E>, n: nat)
    requires n <= MaxDials
    requires forall i :: 0 <= i < n ==> dial(i).Refused?
    requires n < MaxDials ==> dial(n).Dialled?
    ensures FirstSuccess(dial, 0) == n
  {
  }

  /** Attempt ceiling: at least one and at most six dials, and one sleep
      between each two consecutive dials, never one after the last dial. */
  lemma RunShape<C, E>(dial: nat -> DialOutcome<C, E>)
    ensures 1 <= Expected(dial).dials <= MaxDials
    ensures |Expected(dial).sleeps| == Expected(dial).dials - 1
    ensures Expected(dial).sleeps == [1, 4, 9, 16, 25][..Expected(dial).dials - 1]
  {
  }

  /** The call gives up exactly when all six dials fail, and then returns the
      error of the sixth dial unchanged. */
  lemma GiveUpExactlyOnSixthFailure<C, E>(dial: nat -> DialOutcome<C, E>)
    ensures Expected(dial).result.GaveUp? <==> (forall i :: 0 <= i < MaxDials ==> dial(i).Refused?)
    ensures Expected(dial).result.GaveUp? ==>
              Expected(dial).dials == MaxDials &&
              dial(MaxDials - 1) == Refused(Expected(dial).result.err)
  {
  }

  /** If the n-th dial is the first to succeed, its connection is returned
      after exactly n dials and the n - 1 sleeps 1², ..., (n - 1)². */
  lemma FirstSuccessReturned<C, E>(dial: nat -> DialOutcome<C, E>, n: nat)
    requires 1 <= n <= MaxDials
    requires forall i :: 0 <= i < n - 1 ==> dial(i).Refused?
    requires dial(n - 1).Dialled?
    ensures Expected(dial) == Run(Connected(dial(n - 1).conn), n, Backoffs(n - 1))
  {
  }

  /** Nothing happens after the call has decided: dial outcomes beyond the
      dials the run made cannot change the run, so no further dial is made. */
  lemma LaterDialsIgnored<C, E>(d1: nat -> DialOutcome<C, E>, d2: nat -> DialOutcome<C, E>)
    requires forall i :: 0 <= i < Expected(d1).dials ==> d1(i) == d2(i)
    ensures Expected(d1) == Expected(d2)
  {
  }

  /** Backing off is monotone: a shorter prefix of the schedule is a prefix of
      a longer one. */
  lemma BackoffsPrefix(m: nat, n: nat)
    requires m <= n
    ensures Backoffs(m) == Backoffs(n)[..m]
  {
  }

  /** The whole schedule: 1, 4, 9, 16 and 25 seconds. */
  lemma FullSchedule()
    ensures Backoffs(MaxDials - 1) == [1, 4, 9, 16, 25]
  {
  }

  /** Each sleep is strictly longer than the one before it; there is no cap. */
  lemma BackoffsIncrease(n: nat, i: nat, j: nat)
    requires i < j < n
    ensures Backoffs(n)[i] < Backoffs(n)[j]
  {
    var s := Backoffs(n);
    assert s[i] == (i + 1) * (i + 1) && s[j] == (j + 1) * (j + 1);
    SquareStrictlyMonotone(i + 1, j + 1);
  }

  lemma SquareStrictlyMonotone(a: nat, b: nat)
    requires a < b
    ensures a * a < b * b
  {
  }

  /** The time slept before the (k+1)-th dial, after k failures, is
      1² + ... + k² = k(k+1)(2k+1)/6 seconds. */
  lemma {:induction false} TotalBackoff(k: nat)
    ensures 6 * Sum(Backoffs(k)) == k * (k + 1) * (2 * k + 1)
  {
    if k > 0 {
      var s := Backoffs(k);
      assert s[..|s| - 1] == Backoffs(k - 1);
      assert Sum(s) == Sum(Backoffs(k - 1)) + k * k;
      TotalBackoff(k - 1);
      CubeStep(k);
    }
  }

  lemma CubeStep(k: int)
    ensures (k - 1) * k * (2 * k - 1) + 6 * (k * k) == k * (k + 1) * (2 * k + 1)
  {
  }

  /** When every dial fails, the call sleeps exactly five times, for
      1 + 4 + 9 + 16 + 25 = 55 seconds in all, and makes six dials. */
  lemma FullFailureWaits55<C, E>(dial: nat -> DialOutcome<C, E>)
    requires forall i :: 0 <= i < MaxDials ==> dial(i).Refused?
    ensures Expected(dial).dials == MaxDials
    ensures Expected(dial).sleeps == [1, 4, 9, 16, 25]
    ensures Sum(Expected(dial).sleeps) == 55
  {
    FirstSuccessIs(dial, MaxDials);
    FullSchedule();
    TotalBackoff(MaxDials - 1);
  }
}
