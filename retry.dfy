/**
 * The retry/backoff policy of startBalanceUpdater, on values: the failure
 * flag `hasError` and the consecutive-failure counter `retryCount`, how one
 * load outcome changes them, and which sleep they choose.
 */
module Retry {
  import opened Arith

  /** The package variables `hasError` and `retryCount`. */
  datatype RetryState = RetryState(hasError: bool, retryCount: int)

  /** Their initial values, and the state every reset returns to. */
  const Initial: RetryState := RetryState(false, 0)

  /** The largest value of a Go `int` on a 64-bit platform. */
  const MaxInt64: int := 0x7fff_ffff_ffff_ffff

  /**
   * The invariant the loop keeps for a fixed retry limit: the flag is set
   * exactly while failures are being counted, and a counted run of failures
   * stays below the limit.
   */
  predicate Inv(s: RetryState, retryLimit: int)
  {
    s.retryCount >= 0 &&
    (s.hasError <==> s.retryCount > 0) &&
    (s.retryCount == 0 || s.retryCount < retryLimit)
  }

  /** The sleep chosen at the start of an iteration. */
  function NextDelay(s: RetryState, interval: int, retryInterval: int): int
  {
    if s.hasError then retryInterval else interval
  }

  /** A failed load: count it, and give up fast retries once the limit is reached. */
  function AfterFailure(s: RetryState, retryLimit: int): (r: RetryState)
    ensures Inv(s, retryLimit) ==> Inv(r, retryLimit)
    ensures r == Initial || r == RetryState(true, s.retryCount + 1)
    ensures r == Initial <==> s.retryCount + 1 >= retryLimit
  {
    var count := s.retryCount + 1;
    if count >= retryLimit then Initial else RetryState(true, count)
  }

  /** One iteration's effect on the state; a successful load resets it whatever it was. */
  function Transition(s: RetryState, failed: bool, retryLimit: int): (r: RetryState)
    ensures Inv(s, retryLimit) ==> Inv(r, retryLimit)
    ensures !failed ==> r == Initial
  {
    if failed then AfterFailure(s, retryLimit) else Initial
  }

  /** The state after a run of iterations whose loads failed as `failed` says, in order. */
  function Replay(s: RetryState, failed: seq<bool>, retryLimit: int): RetryState
    decreases |failed|
  {
    if |failed| == 0 then s
    else Transition(Replay(s, failed[..|failed| - 1], retryLimit), failed[|failed| - 1], retryLimit)
  }

  /** The sleeps chosen before each iteration of such a run. */
  function Delays(s: RetryState, failed: seq<bool>, retryLimit: int, interval: int, retryInterval: int): (d: seq<int>)
    ensures |d| == |failed|
    decreases |failed|
  {
    if |failed| == 0 then []
    else
      var prefix := failed[..|failed| - 1];
      Delays(s, prefix, retryLimit, interval, retryInterval) + [NextDelay(Replay(s, prefix, retryLimit), interval, retryInterval)]
  }

  /** The number of failures at the end of `failed`, since its last success. */
  function TrailingFailures(failed: seq<bool>): (n: nat)
    ensures n <= |failed|
    decreases |failed|
  {
    if |failed| == 0 || !failed[|failed| - 1] then 0
    else 1 + TrailingFailures(failed[..|failed| - 1])
  }

  /** `k` consecutive failures. */
  function Failing(k: nat): seq<bool>
  {
    seq(k, _ => true)
  }

  /** The state the counter reaches after `n` failures counted from a reset. */
  function Counted(n: nat, retryLimit: int): RetryState
    requires retryLimit >= 1
  {
    RetryState(n % retryLimit > 0, n % retryLimit)
  }

  lemma ReplaySnoc(s: RetryState, failed: seq<bool>, b: bool, retryLimit: int)
    ensures Replay(s, failed + [b], retryLimit) == Transition(Replay(s, failed, retryLimit), b, retryLimit)
  {
    assert (failed + [b])[..|failed|] == failed;
  }

  lemma DelaysSnoc(s: RetryState, failed: seq<bool>, b: bool, retryLimit: int, interval: int, retryInterval: int)
    ensures Delays(s, failed + [b], retryLimit, interval, retryInterval)
         == Delays(s, failed, retryLimit, interval, retryInterval) + [NextDelay(Replay(s, failed, retryLimit), interval, retryInterval)]
  {
    assert (failed + [b])[..|failed|] == failed;
  }

  /** The invariant holds after any run from a state that satisfies it. */
  lemma {:induction false} ReplayKeepsInv(s: RetryState, failed: seq<bool>, retryLimit: int)
    requires Inv(s, retryLimit)
    ensures Inv(Replay(s, failed, retryLimit), retryLimit)
    decreases |failed|
  {
    if |failed| > 0 {
      ReplayKeepsInv(s, failed[..|failed| - 1], retryLimit);
    }
  }

  /** One more failure advances the reset-counted state by one, modulo the limit. */
  lemma CountedStep(n: nat, retryLimit: int)
    requires retryLimit >= 1
    ensures AfterFailure(Counted(n, retryLimit), retryLimit) == Counted(n + 1, retryLimit)
  {
    var q, m := n / retryLimit, n % retryLimit;
    if m + 1 < retryLimit {
      ModOfDecomposition(n + 1, retryLimit, q, m + 1);
    } else {
      MulSucc(q, retryLimit);
      ModOfDecomposition(n + 1, retryLimit, q + 1, 0);
    }
  }

  /**
   * With a positive limit, the state is determined by the failures since the
   * last success (or since the start, if the run began at a reset): that
   * number modulo the limit.
   */
  lemma {:induction false} ReplayCountsTrailingFailures(s: RetryState, failed: seq<bool>, retryLimit: int)
    requires retryLimit >= 1
    requires s == Initial || false in failed
    ensures Replay(s, failed, retryLimit) == Counted(TrailingFailures(failed), retryLimit)
    decreases |failed|
  {
    if |failed| > 0 {
      var prefix := failed[..|failed| - 1];
      if failed[|failed| - 1] {
        assert s == Initial || false in prefix by {
          if false in failed {
            var j :| 0 <= j < |failed| && failed[j] == false;
            assert prefix[j] == false;
          }
        }
        ReplayCountsTrailingFailures(s, prefix, retryLimit);
        CountedStep(TrailingFailures(prefix), retryLimit);
      }
    }
  }

  lemma {:induction false} TrailingOfFailing(k: nat)
    ensures TrailingFailures(Failing(k)) == k
  {
    if k > 0 {
      assert Failing(k)[..k - 1] == Failing(k - 1);
      TrailingOfFailing(k - 1);
    }
  }

  /** From a reset, `k` failures with `k` below the limit leave `(k > 0, k)`. */
  lemma ConsecutiveFailuresCount(k: nat, retryLimit: int)
    requires k < retryLimit
    ensures Replay(Initial, Failing(k), retryLimit) == RetryState(k > 0, k)
  {
    FailingCounted(k, retryLimit);
  }

  /** The limit-th consecutive failure returns the state to its reset values. */
  lemma LimitReachedResets(retryLimit: int)
    requires retryLimit >= 1
    ensures Replay(Initial, Failing(retryLimit), retryLimit) == Initial
  {
    FailingCounted(retryLimit, retryLimit);
  }

  /** Under continuous failure the state cycles with period `retryLimit`. */
  lemma FailuresArePeriodic(k: nat, retryLimit: int)
    requires retryLimit >= 1
    ensures Replay(Initial, Failing(k + retryLimit), retryLimit) == Replay(Initial, Failing(k), retryLimit)
  {
    FailingCounted(k, retryLimit);
    FailingCounted(k + retryLimit, retryLimit);
    CountedPeriodic(k, retryLimit);
  }

  lemma FailingCounted(k: nat, retryLimit: int)
    requires retryLimit >= 1
    ensures Replay(Initial, Failing(k), retryLimit) == Counted(k, retryLimit)
  {
    TrailingOfFailing(k);
    ReplayCountsTrailingFailures(Initial, Failing(k), retryLimit);
  }

  lemma CountedPeriodic(k: nat, retryLimit: int)
    requires retryLimit >= 1
    ensures Counted(k + retryLimit, retryLimit) == Counted(k, retryLimit)
  {
    var q, m := k / retryLimit, k % retryLimit;
    assert k == q * retryLimit + m;
    MulSucc(q, retryLimit);
    ModOfDecomposition(k + retryLimit, retryLimit, q + 1, m);
  }

  /** With a limit of at most one, no failure is ever counted: every run stays at the reset state. */
  lemma {:induction false} SmallLimitNeverCounts(s: RetryState, failed: seq<bool>, retryLimit: int)
    requires retryLimit <= 1 && Inv(s, retryLimit)
    ensures Replay(s, failed, retryLimit) == Initial
    decreases |failed|
  {
    if |failed| > 0 {
      SmallLimitNeverCounts(s, failed[..|failed| - 1], retryLimit);
    }
  }

  /** Sleep number `i` of a run is the sleep that the state after the first `i` loads selects. */
  lemma {:induction false} DelaysAt(s: RetryState, failed: seq<bool>, retryLimit: int, interval: int, retryInterval: int, i: int)
    requires 0 <= i < |failed|
    ensures Delays(s, failed, retryLimit, interval, retryInterval)[i]
         == NextDelay(Replay(s, failed[..i], retryLimit), interval, retryInterval)
    decreases |failed|
  {
    var prefix := failed[..|failed| - 1];
    if i < |failed| - 1 {
      DelaysAt(s, prefix, retryLimit, interval, retryInterval, i);
      assert prefix[..i] == failed[..i];
    } else {
      assert prefix == failed[..i];
    }
  }

  /** With a limit of at most one, the retry interval is never slept. */
  lemma SmallLimitOnlyInterval(failed: seq<bool>, retryLimit: int, interval: int, retryInterval: int)
    requires retryLimit <= 1
    ensures forall i :: 0 <= i < |failed| ==> Delays(Initial, failed, retryLimit, interval, retryInterval)[i] == interval
  {
    forall i | 0 <= i < |failed|
      ensures Delays(Initial, failed, retryLimit, interval, retryInterval)[i] == interval
    {
      DelaysAt(Initial, failed, retryLimit, interval, retryInterval, i);
      SmallLimitNeverCounts(Initial, failed[..i], retryLimit);
    }
  }

  /**
   * From a reset, the sleep before load `i` is the retry interval exactly when
   * the failures since the last success, modulo the limit, are not zero.
   */
  lemma RetryIntervalExactlyWhileCounting(failed: seq<bool>, retryLimit: int, interval: int, retryInterval: int, i: int)
    requires retryLimit >= 1 && 0 <= i < |failed|
    ensures Delays(Initial, failed, retryLimit, interval, retryInterval)[i]
         == if TrailingFailures(failed[..i]) % retryLimit > 0 then retryInterval else interval
  {
    DelaysAt(Initial, failed, retryLimit, interval, retryInterval, i);
    ReplayCountsTrailingFailures(Initial, failed[..i], retryLimit);
  }

  /** Under the invariant, incrementing the counter cannot overflow a 64-bit Go `int`. */
  lemma CounterFitsInt64(s: RetryState, retryLimit: int)
    requires Inv(s, retryLimit) && retryLimit <= MaxInt64
    ensures 0 < s.retryCount + 1 <= MaxInt64
  {
  }
}
