/**
 The fetcher: a single logical GET with a bounded number of attempts and a
 linear backoff after each failed one (`doRequestWithRetry`).
 */
module Fetcher {
  import opened Wrappers
  import opened Catalog

  /** The outcome of one network attempt: a response of any status, or a transport error. */
  datatype Attempt = Responded(response: Response) | Failed(message: string)

  /** HTTP 200, the only status the catalog and detail fetches accept. */
  const StatusOK: int := 200

  /** The pauses after `k` failed attempts: `delayMs * 1`, `delayMs * 2`, ..., `delayMs * k`. */
  function Backoffs(delayMs: int, k: nat): (pauses: seq<int>)
    ensures |pauses| == k
  {
    seq(k, i requires 0 <= i < k => delayMs * (i + 1))
  }

  /**
   What a request with at most `maxRetries` attempts yields, attempt by
   attempt: the response of the first attempt that got one, or, once the
   attempts are used up, the exhaustion error with the last transport error
   seen.
   */
  function Fetched(net: nat -> Attempt, maxRetries: int): Result<Response, FetchError> {
    FetchedFrom(net, maxRetries, 0, None)
  }

  /** The outcome from attempt `i` on, `last` being the transport error of the attempt before it. */
  function FetchedFrom(net: nat -> Attempt, maxRetries: int, i: nat, last: Option<string>): Result<Response, FetchError>
    decreases maxRetries - i
  {
    if i >= maxRetries then Err(NetworkExhausted(maxRetries, last))
    else
      match net(i)
      case Responded(response) => Ok(response)
      case Failed(message) => FetchedFrom(net, maxRetries, i + 1, Some(message))
  }

  /** The first attempt that got a response, within the allowed attempts, decides the outcome. */
  lemma FetchedFirstResponse(net: nat -> Attempt, maxRetries: int, i: nat)
    requires i < maxRetries && net(i).Responded?
    requires forall j :: 0 <= j < i ==> net(j).Failed?
    ensures Fetched(net, maxRetries) == Ok(net(i).response)
  {
    FetchedFromFirstResponse(net, maxRetries, i, 0, None);
  }

  /** From any attempt up to the first responding one, the outcome is that response. */
  lemma {:induction false} FetchedFromFirstResponse(net: nat -> Attempt, maxRetries: int, i: nat, j: nat, last: Option<string>)
    requires j <= i < maxRetries && net(i).Responded?
    requires forall k :: j <= k < i ==> net(k).Failed?
    ensures FetchedFrom(net, maxRetries, j, last) == Ok(net(i).response)
    decreases i - j
  {
    if j < i {
      FetchedFromFirstResponse(net, maxRetries, i, j + 1, Some(net(j).message));
    }
  }

  /**
   Attempts a request at most `maxRetries` times. Attempt `i` (from 0) gets
   `net(i)`; the first response of any status is returned, and every failed
   attempt, the last one included, is followed by a pause of
   `delayMs * (i + 1)`. When no attempt succeeds the error reports
   `maxRetries` and the last transport error (none when no attempt was made).
   */
  method DoRequestWithRetry(net: nat -> Attempt, maxRetries: int, delayMs: int)
    returns (r: Result<Response, FetchError>, ghost attempts: nat, ghost pauses: seq<int>)
    ensures attempts <= (if maxRetries > 0 then maxRetries else 0)
    ensures forall i :: 0 <= i < attempts && (r.Err? || i < attempts - 1) ==> net(i).Failed?
    ensures r == Fetched(net, maxRetries)
    ensures r.Ok? <==> exists i :: 0 <= i < maxRetries && net(i).Responded?
    ensures r.Ok? ==> attempts > 0 && net(attempts - 1) == Responded(r.value)
    ensures r.Ok? ==> pauses == Backoffs(delayMs, attempts - 1)
    ensures r.Err? ==> attempts == (if maxRetries > 0 then maxRetries else 0)
    ensures r.Err? ==> pauses == Backoffs(delayMs, attempts)
    ensures r.Err? ==> r.error == NetworkExhausted(maxRetries,
                                     if attempts == 0 then None else Some(net(attempts - 1).message))
  {
    var lastError: Option<string> := None;
    var i := 0;
    attempts, pauses := 0, [];
    while i < maxRetries
      invariant 0 <= i <= (if maxRetries > 0 then maxRetries else 0)
      invariant attempts == i && pauses == Backoffs(delayMs, i)
      invariant forall j :: 0 <= j < i ==> net(j).Failed?
      invariant lastError == (if i == 0 then None else Some(net(i - 1).message))
      invariant Fetched(net, maxRetries) == FetchedFrom(net, maxRetries, i, lastError)
    {
      var outcome := net(i);
      attempts := attempts + 1;
      if outcome.Responded? {
        r := Ok(outcome.response);
        return;
      }
      lastError := Some(outcome.message);
      pauses := pauses + [delayMs * (i + 1)];
      i := i + 1;
    }
    r := Err(NetworkExhausted(maxRetries, lastError));
  }

  /**
   A fetch followed by the status check: the body of the first response
   when that response has status 200; otherwise the exhaustion error or a
   `BadStatus` error carrying the first response's code.
   */
  method FetchBody(net: nat -> Attempt, maxRetries: int, delayMs: int) returns (r: Result<seq<byte>, FetchError>)
    ensures r == CheckStatus(Fetched(net, maxRetries))
    ensures (forall i :: 0 <= i < maxRetries ==> net(i).Failed?) && maxRetries > 0 ==>
      r == Err(NetworkExhausted(maxRetries, Some(net(maxRetries - 1).message)))
    ensures forall i :: 0 <= i < maxRetries && net(i).Responded? && (forall j :: 0 <= j < i ==> net(j).Failed?) ==>
      r == (if net(i).response.status == StatusOK then Ok(net(i).response.body)
            else Err(BadStatus(net(i).response.status)))
    ensures r.Ok? ==> exists i :: 0 <= i < maxRetries && net(i).Responded? && net(i).response.status == StatusOK &&
                                  (forall j :: 0 <= j < i ==> net(j).Failed?)
  {
    var fetched;
    ghost var attempts, pauses;
    fetched, attempts, pauses := DoRequestWithRetry(net, maxRetries, delayMs);
    forall i | 0 <= i < maxRetries && net(i).Responded? && (forall j :: 0 <= j < i ==> net(j).Failed?)
      ensures fetched == Ok(net(i).response)
    {
      FetchedFirstResponse(net, maxRetries, i);
    }
    r := CheckStatus(fetched);
  }

  /**
   The status check the catalog and detail fetches make after the retry loop:
   anything but 200 becomes a `BadStatus` error carrying the code.
   */
  function CheckStatus(fetched: Result<Response, FetchError>): (r: Result<seq<byte>, FetchError>)
    ensures r.Ok? <==> fetched.Ok? && fetched.value.status == StatusOK
    ensures r.Ok? ==> r.value == fetched.value.body
    ensures fetched.Err? ==> r == Err(fetched.error)
    ensures fetched.Ok? && fetched.value.status != StatusOK ==> r == Err(BadStatus(fetched.value.status))
  {
    match fetched
    case Err(e) => Err(e)
    case Ok(resp) => if resp.status != StatusOK then Err(BadStatus(resp.status)) else Ok(resp.body)
  }
}
