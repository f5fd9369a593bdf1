/**
 * The balance updater: the mutable state of startBalanceUpdater and
 * loadBalance (the failure flag, the failure counter and the gauge) as the
 * fields of one object, together with the settings they run under.
 */
module Updater {
  import opened Results
  import opened Retry
  import opened Balance

  class BalanceUpdater<V> {
    // the account whose balance is published, fixed after start-up
    const login: string
    const password: string
    // the -interval, -retry-interval and -retry-limit flags
    const interval: int
    const retryInterval: int
    const retryLimit: int

    var hasError: bool
    var retryCount: int
    var gauge: map<string, V>

    /** The retry state held in the flag and the counter. */
    function State(): RetryState
      reads this
    {
      RetryState(hasError, retryCount)
    }

    ghost predicate Valid()
      reads this
    {
      Inv(State(), retryLimit)
    }

    /** The package variables at start-up: no error, no failures, an empty gauge. */
    constructor (login: string, password: string, interval: int, retryInterval: int, retryLimit: int)
      ensures Valid() && State() == Initial && gauge == map[]
      ensures this.login == login && this.password == password
      ensures this.interval == interval && this.retryInterval == retryInterval && this.retryLimit == retryLimit
    {
      this.login, this.password := login, password;
      this.interval, this.retryInterval, this.retryLimit := interval, retryInterval, retryLimit;
      hasError, retryCount := false, 0;
      gauge := map[];
    }

    /** loadBalance: publish a successfully parsed balance, otherwise return the error and keep the gauge. */
    method LoadBalance(fetch: Fetch, parse: string -> Result<V, string>) returns (err: Option<string>)
      modifies this`gauge
      ensures var o := Attempt(fetch, parse, login, password);
              gauge == Publish(old(gauge), login, o) &&
              err == (if o.Err? then Some(o.message) else None)
    {
      if fetch.FetchError? {
        return Some(fetch.message);
      }
      var parsed := parse(fetch.text);
      if parsed.Failure? {
        return Some(Redaction.HideCredentials("Cannot parse balance: " + parsed.error, login, password));
      }
      gauge := gauge[login := parsed.value];
      return None;
    }

    /**
     * One iteration of startBalanceUpdater: choose the sleep from the current
     * state, load, then count the failure or reset.
     */
    method Iterate(fetch: Fetch, parse: string -> Result<V, string>) returns (delay: int, err: Option<string>, limitExceeded: bool)
      requires Valid()
      modifies this`hasError, this`retryCount, this`gauge
      ensures Valid()
      ensures delay == (if old(hasError) then retryInterval else interval)
      ensures var o := Attempt(fetch, parse, login, password);
              err == (if o.Err? then Some(o.message) else None) &&
              State() == Transition(old(State()), o.Err?, retryLimit) &&
              gauge == Publish(old(gauge), login, o)
      ensures err.None? ==> !hasError && retryCount == 0
      ensures limitExceeded <==> err.Some? && old(retryCount) + 1 >= retryLimit
    {
      if hasError {
        delay := retryInterval;
      } else {
        delay := interval;
      }
      limitExceeded := false;
      err := LoadBalance(fetch, parse);
      if err.Some? {
        hasError := true;
        retryCount := retryCount + 1;
        if retryCount >= retryLimit {
          limitExceeded := true;
          hasError := false;
          retryCount := 0;
        }
      } else {
        hasError := false;
        retryCount := 0;
      }
    }

    /**
     * startBalanceUpdater over a finite run of fetch results: the sleeps it
     * chooses, and the state and gauge it leaves.
     */
    method Run(fetches: seq<Fetch>, parse: string -> Result<V, string>) returns (delays: seq<int>)
      requires Valid()
      modifies this`hasError, this`retryCount, this`gauge
      ensures Valid()
      ensures var os := Attempts(fetches, parse, login, password);
              State() == Replay(old(State()), Failed(os), retryLimit) &&
              gauge == PublishAll(old(gauge), login, os) &&
              delays == Delays(old(State()), Failed(os), retryLimit, interval, retryInterval)
    {
      ghost var s0, g0 := State(), gauge;
      ghost var os: seq<Outcome<V>> := [];
      delays := [];
      var i := 0;
      while i < |fetches|
        invariant 0 <= i <= |fetches|
        invariant Valid()
        invariant os == Attempts(fetches[..i], parse, login, password)
        invariant State() == Replay(s0, Failed(os), retryLimit)
        invariant gauge == PublishAll(g0, login, os)
        invariant delays == Delays(s0, Failed(os), retryLimit, interval, retryInterval)
      {
        ghost var o := Attempt(fetches[i], parse, login, password);
        AttemptsSnoc(fetches, parse, login, password, i);
        FailedSnoc(os, o);
        ReplaySnoc(s0, Failed(os), o.Err?, retryLimit);
        DelaysSnoc(s0, Failed(os), o.Err?, retryLimit, interval, retryInterval);
        PublishAllSnoc(g0, login, os, o);
        var delay, err, _ := Iterate(fetches[i], parse);
        os := os + [o];
        delays := delays + [delay];
        i := i + 1;
      }
      assert fetches[..i] == fetches;
    }
  }

  /**
   * An outage of exactly `retryLimit` failed loads from a reset: the state is
   * back to the reset values, so the normal interval is used next, and the
   * gauge still holds the balance it held before.
   */
  lemma OutageFallsBack<V>(gauge: map<string, V>, login: string, os: seq<Outcome<V>>, retryLimit: int)
    requires |os| == retryLimit && retryLimit >= 1
    requires forall i :: 0 <= i < |os| ==> os[i].Err?
    ensures Replay(Initial, Failed(os), retryLimit) == Initial
    ensures PublishAll(gauge, login, os) == gauge
  {
    assert Failed(os) == Failing(retryLimit);
    LimitReachedResets(retryLimit);
    PublishAllKeepsLastGood(gauge, login, os);
  }
}
