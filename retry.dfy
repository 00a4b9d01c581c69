/**
 * The retry policy of `post_to_discord` in dingers/main.py: at most three
 * attempts, another attempt only after a connection error, a timeout or an
 * HTTP error that `_should_retry_http_error` accepts, and the last exception
 * raised again when the attempts run out.
 */
module Retry {
  import opened Wrappers

  /** The statuses worth another try: 429 Too Many Requests (section 4 of RFC 6585)
      and 500, 502, 503 and 504 (section 15.6 of RFC 9110). */
  const RetryableStatus: set<int> := {429, 500, 502, 503, 504}

  const MaxAttempts: nat := 3

  datatype Response = Response(status: int)

  /** What an attempt can raise: the two `requests` exception types the policy
      names, an `HTTPError` with the response it carries, or anything else. */
  datatype Failure = ConnectionError | Timeout | HttpError(response: Option<Response>) | OtherError

  /** One call: it returned, or it raised. */
  datatype Outcome = Returned | Raised(failure: Failure)

  /** `bool(response)` in the requests library is `response.ok`, which is false for
      every status from 400 to 599. */
  predicate Truthy(r: Response) {
    !(400 <= r.status < 600)
  }

  /** `_should_retry_http_error` as written: `exception.response` is tested for
      truth before its status is read. Every retryable status is an error status,
      whose response is false, so the check never holds. */
  function ShouldRetryAsWritten(f: Failure): (b: bool)
    ensures !b
  {
    if !f.HttpError? then false
    else
      var status: Option<int> :=
        if f.response.Some? && Truthy(f.response.value) then Some(f.response.value.status) else None;
      status.Some? && status.value in RetryableStatus
  }

  /** The check as intended: an HTTP error whose response has a retryable status.
      Only an HTTP error with a response is retried, and only for an error status. */
  function ShouldRetry(f: Failure): (b: bool)
    ensures b ==> f.HttpError? && f.response.Some? && !Truthy(f.response.value)
    ensures f.HttpError? && f.response.Some? && f.response.value.status == 503 ==> b
  {
    f.HttpError? && f.response.Some? && f.response.value.status in RetryableStatus
  }

  /** Which reading of the HTTP-error check the policy uses. */
  datatype Check = AsWritten | Intended

  /** The `retry=` condition of the decorator. A connection error or a timeout is
      always retried and any other exception never; as written, nothing else is. */
  function Retryable(c: Check, f: Failure): (b: bool)
    ensures f.ConnectionError? || f.Timeout? ==> b
    ensures f.OtherError? ==> !b
    ensures c == AsWritten ==> (b <==> f.ConnectionError? || f.Timeout?)
  {
    f.ConnectionError? || f.Timeout? ||
    (if c == AsWritten then ShouldRetryAsWritten(f) else ShouldRetry(f))
  }

  /** The attempts from the `k`-th on, where `calls(k)` is what the `k`-th attempt
      does: the number of the last attempt and its outcome. */
  function RunFrom(c: Check, calls: nat -> Outcome, k: nat): (r: (nat, Outcome))
    requires 1 <= k <= MaxAttempts
    ensures k <= r.0 <= MaxAttempts && r.1 == calls(r.0)
    ensures forall j :: k <= j < r.0 ==> calls(j).Raised? && Retryable(c, calls(j).failure)
    ensures r.1.Raised? ==> r.0 == MaxAttempts || !Retryable(c, r.1.failure)
    decreases MaxAttempts - k
  {
    match calls(k)
    case Returned => (k, Returned)
    case Raised(f) =>
      if !Retryable(c, f) || k == MaxAttempts then (k, Raised(f)) else RunFrom(c, calls, k + 1)
  }

  /** An attempt that raises something retryable before the last hands the run on. */
  lemma RunFromStep(c: Check, calls: nat -> Outcome, k: nat)
    requires 1 <= k < MaxAttempts && calls(k).Raised? && Retryable(c, calls(k).failure)
    ensures RunFrom(c, calls, k) == RunFrom(c, calls, k + 1)
  {
  }

  /** The whole run of the decorated call. */
  function Run(c: Check, calls: nat -> Outcome): (nat, Outcome) {
    RunFrom(c, calls, 1)
  }

  /** The run is fixed by the outcomes it meets: one attempt after another while
      they raise something retryable, stopping at the first other outcome or at
      the third attempt. */
  lemma {:induction false} RunUnique(c: Check, calls: nat -> Outcome, k: nat, n: nat)
    requires 1 <= k <= n <= MaxAttempts
    requires forall j :: k <= j < n ==> calls(j).Raised? && Retryable(c, calls(j).failure)
    requires calls(n).Returned? || n == MaxAttempts || !Retryable(c, calls(n).failure)
    ensures RunFrom(c, calls, k) == (n, calls(n))
    decreases n - k
  {
    if k < n {
      RunUnique(c, calls, k + 1, n);
    }
  }

  /** An exception that is not retryable is raised after exactly one attempt. */
  lemma RaisedAtOnce(c: Check, calls: nat -> Outcome)
    requires calls(1).Raised? && !Retryable(c, calls(1).failure)
    ensures Run(c, calls) == (1, calls(1))
  {
    RunUnique(c, calls, 1, 1);
  }

  /** As written, no HTTP error whose response carries a status from 400 to 599 is
      retried, and `raise_for_status` raises only for those. */
  lemma HttpErrorsNeverRetried(status: int)
    requires 400 <= status < 600
    ensures !ShouldRetryAsWritten(HttpError(Some(Response(status))))
    ensures status in RetryableStatus ==> ShouldRetry(HttpError(Some(Response(status))))
  {
  }

  /** Two 503 answers, then success. */
  function Flaky503(k: nat): Outcome {
    if k <= 2 then Raised(HttpError(Some(Response(503)))) else Returned
  }

  /** On that input the code as written gives up after the first 503 and raises
      it; the intended check retries twice and succeeds on the third attempt. */
  lemma Flaky503Runs()
    ensures Run(AsWritten, Flaky503) == (1, Raised(HttpError(Some(Response(503)))))
    ensures Run(Intended, Flaky503) == (3, Returned)
  {
    RunUnique(AsWritten, Flaky503, 1, 1);
    RunUnique(Intended, Flaky503, 1, 3);
  }

  /** With the intended check, a retryable status on each of the first two
      attempts followed by success is a success on the third attempt. */
  lemma RetriedStatuses(s1: int, s2: int)
    requires s1 in RetryableStatus && s2 in RetryableStatus
    ensures Run(Intended, k => if k == 1 then Raised(HttpError(Some(Response(s1))))
                              else if k == 2 then Raised(HttpError(Some(Response(s2))))
                              else Returned) == (3, Returned)
  {
    var calls := (k: nat) => if k == 1 then Raised(HttpError(Some(Response(s1))))
                             else if k == 2 then Raised(HttpError(Some(Response(s2))))
                             else Returned;
    RunUnique(Intended, calls, 1, 3);
  }
}
