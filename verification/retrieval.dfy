/** The retry loop of `try_request` and `try_request_post` in
    Scripts/gwcatalog_api.py (the two functions are the same loop around a
    GET and a POST) and its use by `get_trait_name`. The server is a
    parameter: `server(i)` is what the `i`-th call answers, counting from 0.
    The pause between calls is left out. */
module Retrieval {
  import opened Wrappers

  /** The parts of an HTTP response the callers look at. */
  datatype Response = Response(status: int, traitName: string)

  /** One call: a response, or an exception raised by the request. */
  datatype Attempt = Answer(response: Response) | Raised

  /** Statuses that end the loop: success, bad request and not found. */
  predicate Final(status: int)
  {
    status == 200 || status == 400 || status == 404
  }

  /** An answer the loop asks again after. */
  predicate Retryable(a: Attempt)
  {
    a.Answer? && !Final(a.response.status)
  }

  /** The number of calls the loop makes at most: the counter starts at two
      after the first call, so a timeout below two still allows two calls. */
  function Budget(timeout: int): (b: nat)
    ensures b >= 2 && b >= timeout
    ensures b == timeout || b == 2
  {
    if timeout >= 2 then timeout else 2
  }

  /** What the function returns after its last call: the response when it
      has status 200, otherwise nothing. */
  function Outcome(a: Attempt): (r: Option<Response>)
    ensures r.Some? <==> a.Answer? && a.response.status == 200
    ensures r.Some? ==> r.value == a.response
  {
    if a.Answer? && a.response.status == 200 then Some(a.response) else None
  }

  /** The retry loop. `calls` is the number of requests made. Every call
      but the last was answered with a status that asks for another try;
      the loop stops early only on a final status or an exception; the
      result is the last response if its status is 200. */
  method TryRequest(server: nat -> Attempt, timeout: int) returns (result: Option<Response>, calls: nat)
    ensures 1 <= calls <= Budget(timeout)
    ensures forall i :: 0 <= i < calls - 1 ==> Retryable(server(i))
    ensures calls < Budget(timeout) ==> !Retryable(server(calls - 1))
    ensures result.Some? <==> server(calls - 1).Answer? && server(calls - 1).response.status == 200
    ensures result.Some? ==> result.value == server(calls - 1).response
  {
    var r := server(0);
    calls := 1;
    if r.Raised? {
      return None, calls;
    }
    var tries := 2;
    while !Final(r.response.status)
      invariant r.Answer? && r == server(calls - 1)
      invariant calls == tries - 1
      invariant 2 <= tries <= Budget(timeout)
      invariant forall i :: 0 <= i < calls - 1 ==> Retryable(server(i))
      decreases Budget(timeout) - calls
    {
      r := server(calls);
      calls := calls + 1;
      if r.Raised? {
        return None, calls;
      }
      if tries >= timeout {
        break;
      }
      tries := tries + 1;
    }
    result := Outcome(r);
  }

  /** A server that answers every call with status 500 is asked exactly
      `timeout` times, and nothing is returned. */
  method AlwaysBusy() returns (result: Option<Response>, calls: nat)
    ensures calls == 5 && result.None?
  {
    result, calls := TryRequest((i: nat) => Answer(Response(500, "")), 5);
  }

  /** A timeout below two still makes a second call. */
  method BusyWithTimeoutOne() returns (result: Option<Response>, calls: nat)
    ensures calls == 2 && result.None?
  {
    result, calls := TryRequest((i: nat) => Answer(Response(503, "")), 1);
  }

  /** Not found ends the loop at once, with nothing returned. */
  method NotFoundAtOnce() returns (result: Option<Response>, calls: nat)
    ensures calls == 1 && result.None?
  {
    var server := (i: nat) => Answer(Response(404, ""));
    result, calls := TryRequest(server, 5);
    assert !Retryable(server(0));
  }

  /** A server that is busy twice and then answers is asked three times. */
  method AnswersOnThirdCall(name: string) returns (result: Option<Response>, calls: nat)
    ensures calls == 3 && result == Some(Response(200, name))
  {
    var server := (i: nat) => if i < 2 then Answer(Response(500, "")) else Answer(Response(200, name));
    result, calls := TryRequest(server, 5);
    assert Retryable(server(0)) && Retryable(server(1)) && !Retryable(server(2));
  }

  /** `get_trait_name`: the trait name of a successful lookup, "NA"
      otherwise. The default timeout of five calls is used. The first call
      among the five that does not ask for another try decides: a 200
      gives its trait name, anything else "NA". */
  method GetTraitName(server: nat -> Attempt) returns (name: string)
    ensures forall k ::
      (0 <= k < 5 && (forall i :: 0 <= i < k ==> Retryable(server(i))) && server(k).Answer? && server(k).response.status == 200)
      ==> name == server(k).response.traitName
    ensures forall k ::
      (0 <= k < 5 && (forall i :: 0 <= i < k ==> Retryable(server(i))) && !Retryable(server(k))
       && !(server(k).Answer? && server(k).response.status == 200))
      ==> name == "NA"
    ensures (forall i :: 0 <= i < 5 ==> Retryable(server(i))) ==> name == "NA"
    ensures name == "NA" || exists i :: 0 <= i < 5 && server(i) == Answer(Response(200, name))
  {
    var result, calls := TryRequest(server, 5);
    if result.None? {
      name := "NA";
    } else {
      name := result.value.traitName;
    }
    var last: nat := calls - 1;
    forall k | 0 <= k < 5 && (forall i :: 0 <= i < k ==> Retryable(server(i))) && !Retryable(server(k))
      ensures k == last
    {
      assert k >= last;
      assert last < k ==> Retryable(server(last));
    }
  }
}
