/**
 * loadBalance as values: the outcome of one fetch-and-parse attempt, and its
 * effect on the balance gauge, a map from the `service` label to the value.
 */
module Balance {
  import opened Results
  import opened Redaction

  /** What loadBody delivered: the first line of the response, or an (already redacted) error. */
  datatype Fetch = Body(text: string) | FetchError(message: string)

  /** The outcome of loadBalance: a parsed balance, or the error it returns. */
  datatype Outcome<V> = Ok(value: V) | Err(message: string)

  /**
   * Fetch, then parse. A parse failure is reported as "Cannot parse balance: "
   * followed by the parser's error, with the credentials hidden.
   */
  function Attempt<V>(fetch: Fetch, parse: string -> Result<V, string>, login: string, password: string): Outcome<V>
  {
    match fetch
    case FetchError(m) => Err(m)
    case Body(text) =>
      match parse(text)
      case Success(v) => Ok(v)
      case Failure(e) => Err(HideCredentials("Cannot parse balance: " + e, login, password))
  }

  /** The outcomes of a run of fetch results. */
  function Attempts<V>(fetches: seq<Fetch>, parse: string -> Result<V, string>, login: string, password: string): seq<Outcome<V>>
  {
    seq(|fetches|, i requires 0 <= i < |fetches| => Attempt(fetches[i], parse, login, password))
  }

  /** The gauge after an outcome is published under `login`. */
  function Publish<V>(gauge: map<string, V>, login: string, o: Outcome<V>): (g: map<string, V>)
    // a failed attempt leaves the last good value in place
    ensures o.Err? ==> g == gauge
    // a success sets the login's entry and creates it if it is new
    ensures o.Ok? ==> login in g && g[login] == o.value
    ensures g.Keys == if o.Ok? then gauge.Keys + {login} else gauge.Keys
    // no other label is touched
    ensures forall k :: k in gauge && k != login ==> g[k] == gauge[k]
  {
    match o
    case Ok(v) => gauge[login := v]
    case Err(_) => gauge
  }

  /** The gauge after a run of outcomes is published in order. */
  function PublishAll<V>(gauge: map<string, V>, login: string, os: seq<Outcome<V>>): map<string, V>
    decreases |os|
  {
    if |os| == 0 then gauge
    else Publish(PublishAll(gauge, login, os[..|os| - 1]), login, os[|os| - 1])
  }

  /** The most recent successfully parsed balance of a run, if any. */
  function LastOk<V>(os: seq<Outcome<V>>): (r: Option<V>)
    ensures r.None? <==> forall i :: 0 <= i < |os| ==> os[i].Err?
    decreases |os|
  {
    if |os| == 0 then None
    else if os[|os| - 1].Ok? then Some(os[|os| - 1].value)
    else LastOk(os[..|os| - 1])
  }

  /** A found balance is that of a success followed only by failures. */
  lemma {:induction false} LastOkIsLatestSuccess<V>(os: seq<Outcome<V>>)
    requires LastOk(os).Some?
    ensures exists i :: 0 <= i < |os| && os[i] == Ok(LastOk(os).value) && forall j :: i < j < |os| ==> os[j].Err?
    decreases |os|
  {
    var n := |os|;
    if os[n - 1].Ok? {
      assert os[n - 1] == Ok(LastOk(os).value);
    } else {
      var prefix := os[..n - 1];
      LastOkIsLatestSuccess(prefix);
      var i :| 0 <= i < |prefix| && prefix[i] == Ok(LastOk(prefix).value) && forall j :: i < j < |prefix| ==> prefix[j].Err?;
      assert os[i] == prefix[i];
      assert forall j :: i < j < n ==> os[j].Err? by {
        forall j | i < j < n ensures os[j].Err? {
          if j < n - 1 {
            assert os[j] == prefix[j];
          }
        }
      }
    }
  }

  /** Which loads of a run failed. */
  function Failed<V>(os: seq<Outcome<V>>): seq<bool>
  {
    seq(|os|, i requires 0 <= i < |os| => os[i].Err?)
  }

  /** The gauge holds the last-known-good balance: that of the latest success, or what it held before. */
  lemma {:induction false} PublishAllKeepsLastGood<V>(gauge: map<string, V>, login: string, os: seq<Outcome<V>>)
    ensures PublishAll(gauge, login, os) == match LastOk(os) case None => gauge case Some(v) => gauge[login := v]
    decreases |os|
  {
    if |os| > 0 {
      PublishAllKeepsLastGood(gauge, login, os[..|os| - 1]);
    }
  }

  /** Publishing the same balance again changes nothing and adds no label. */
  lemma PublishIdempotent<V>(gauge: map<string, V>, login: string, v: V)
    ensures Publish(Publish(gauge, login, Ok(v)), login, Ok(v)) == Publish(gauge, login, Ok(v))
  {
  }

  lemma AttemptsSnoc<V>(fetches: seq<Fetch>, parse: string -> Result<V, string>, login: string, password: string, i: int)
    requires 0 <= i < |fetches|
    ensures Attempts(fetches[..i + 1], parse, login, password)
         == Attempts(fetches[..i], parse, login, password) + [Attempt(fetches[i], parse, login, password)]
  {
  }

  lemma FailedSnoc<V>(os: seq<Outcome<V>>, o: Outcome<V>)
    ensures Failed(os + [o]) == Failed(os) + [o.Err?]
  {
  }

  lemma PublishAllSnoc<V>(gauge: map<string, V>, login: string, os: seq<Outcome<V>>, o: Outcome<V>)
    ensures PublishAll(gauge, login, os + [o]) == Publish(PublishAll(gauge, login, os), login, o)
  {
    assert (os + [o])[..|os|] == os;
  }
}
