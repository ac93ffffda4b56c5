/**
 * The resilient transport: `safe_request` (a counted retry loop with a backoff
 * sleep between attempts) and `get_json_response` (one transport call, then a
 * JSON decode that is not retried).
 *
 * The network is a function from the attempt index to what happened on that
 * attempt; sleeps are recorded by the exponent `i` of their
 * `delay_base * 2 ** i + uniform(0, 1)` duration, not by their length.
 */
module Transport {
  import Text
  import opened JsonValue

  /** `safe_request`'s default `retry`. */
  const DefaultRetry: int := 3

  /** What one HTTP attempt produced. */
  datatype Attempt =
    | NoResponse                         // `s.get`/`s.post` raised (connection error, timeout)
    | Answered(status: int, text: string)

  datatype Response = Response(status: int, text: string)

  /** One request's environment: the value of `int(time.time())` put in its
      `timestamp` field, and the network that answers it. */
  datatype Exchange = Exchange(clock: int, net: nat -> Attempt)

  /** `response.raise_for_status()` raises for client and server errors. */
  predicate RaisesForStatus(status: int) {
    400 <= status < 600
  }

  /** The attempt ends the loop: an answer whose status does not raise and
      whose body is not empty after `strip()`. */
  predicate Accepted(a: Attempt) {
    a.Answered? && !RaisesForStatus(a.status) && Text.Strip(a.text) != ""
  }

  /** The first accepted attempt among `from .. retry - 1`, if any. */
  function FirstAccepted(net: nat -> Attempt, retry: int, from: nat): (r: Option<nat>)
    ensures r.Some? ==> from <= r.value < retry && Accepted(net(r.value))
    ensures r.Some? ==> forall j :: from <= j < r.value ==> !Accepted(net(j))
    ensures r.None? ==> forall j :: from <= j < retry ==> !Accepted(net(j))
    decreases retry - from
  {
    if retry <= from then None
    else if Accepted(net(from)) then Some(from)
    else FirstAccepted(net, retry, from + 1)
  }

  /** The exponents of the backoff sleeps taken after attempts `0 .. n - 1`. */
  function Upto(n: nat): (s: seq<nat>)
    ensures |s| == n && forall i :: 0 <= i < n ==> s[i] == i
  {
    seq(n, i requires 0 <= i => i)
  }

  /** `safe_request(url, ..., retry)`: tries at most `retry` times and returns
      the first accepted answer; sleeps after every failed attempt except the
      last allowed one; raises once all `retry` attempts failed. */
  method SafeRequest(net: nat -> Attempt, retry: int) returns (r: Result<Response>, attempts: nat, backoffs: seq<nat>)
    ensures attempts <= (if retry < 0 then 0 else retry)
    ensures match FirstAccepted(net, retry, 0)
      case Some(i) =>
        && r == Ok(Response(net(i).status, net(i).text))
        && attempts == i + 1
        && backoffs == Upto(i)
      case None =>
        && r == Err(RetriesExhausted(retry))
        && attempts == (if retry < 0 then 0 else retry)
        && backoffs == Upto(if retry < 1 then 0 else retry - 1)
  {
    attempts, backoffs := 0, [];
    var i := 0;
    while i < retry
      invariant 0 <= i && (retry >= 0 ==> i <= retry) && (retry < 0 ==> i == 0)
      invariant attempts == i
      invariant backoffs == Upto(if i == retry && i > 0 then i - 1 else i)
      invariant FirstAccepted(net, retry, 0) == FirstAccepted(net, retry, i)
    {
      attempts := attempts + 1;
      var a := net(i);
      // `raise_for_status()`, then the empty-body `ValueError`; any raise is caught
      if Accepted(a) {
        assert FirstAccepted(net, retry, i) == Some(i);
        r := Ok(Response(a.status, a.text));
        return;
      }
      assert FirstAccepted(net, retry, i) == FirstAccepted(net, retry, i + 1);
      if i < retry - 1 {
        backoffs := backoffs + [i];
        assert backoffs == Upto(i + 1);
      }
      i := i + 1;
    }
    assert FirstAccepted(net, retry, i) == None;
    r := Err(RetriesExhausted(retry));
  }

  /** What `get_json_response` returns or raises: the transport's failure, or
      the decoded body of the first accepted answer. */
  function JsonReply(net: nat -> Attempt, decode: string -> Option<Json>): Result<Json> {
    match FirstAccepted(net, DefaultRetry, 0)
    case None => Err(RetriesExhausted(DefaultRetry))
    case Some(i) =>
      match decode(net(i).text)
      case None => Err(JsonDecodeError)
      case Some(j) => Ok(j)
  }

  /** `get_json_response`: one `safe_request` with the default three attempts,
      then `response.json()`. A body that does not decode raises
      `JsonDecodeError` after the transport has returned: no further attempt
      is made. */
  method GetJsonResponse(net: nat -> Attempt, decode: string -> Option<Json>)
    returns (r: Result<Json>, attempts: nat, backoffs: seq<nat>)
    ensures r == JsonReply(net, decode)
    ensures match FirstAccepted(net, DefaultRetry, 0)
      case Some(i) => attempts == i + 1 && backoffs == Upto(i)
      case None => attempts == DefaultRetry && backoffs == Upto(DefaultRetry - 1)
    ensures r == Err(JsonDecodeError) ==>
              Accepted(net(attempts - 1)) && decode(net(attempts - 1).text).None?
  {
    var response;
    response, attempts, backoffs := SafeRequest(net, DefaultRetry);
    match response
    case Err(e) =>
      r := Err(e);
    case Ok(resp) =>
      match decode(resp.text)
      case None =>
        r := Err(JsonDecodeError);
      case Some(j) =>
        r := Ok(j);
  }
}
