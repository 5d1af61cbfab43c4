/**
  The per-chunk retry loop of `process_pdf` (src/lib.rs): one extraction call,
  then up to three more, taken only while the last call failed with an error
  whose text contains `RESOURCE_EXHAUSTED`.  The remote service is an oracle:
  `responses[k]` is what the `k`-th call (counting from 0) returns.
*/
module Retry {

  import opened Strings
  import opened Types

  /** The initial value of `retries`. */
  const MaxRetries: nat := 3
  /** One initial call plus every retry. */
  const MaxCalls: nat := MaxRetries + 1
  const RateLimitMarker: string := "RESOURCE_EXHAUSTED"

  /** An error the loop retries: its text contains the rate-limit marker. */
  predicate IsRateLimited(o: Outcome)
    ensures IsRateLimited(o) <==> o.Err? && exists i :: OccursAt(o.message, RateLimitMarker, i)
  {
    if o.Err? then
      ContainsIffOccurs(o.message, RateLimitMarker);
      Contains(o.message, RateLimitMarker)
    else false
  }

  /** Number of calls the loop makes when call `k` is already under way. */
  function CallsFrom(responses: seq<Outcome>, k: nat): (calls: nat)
    requires k < MaxCalls <= |responses|
    ensures k < calls <= MaxCalls
    ensures forall j :: k <= j < calls - 1 ==> IsRateLimited(responses[j])
    ensures calls < MaxCalls ==> !IsRateLimited(responses[calls - 1])
    decreases MaxCalls - k
  {
    if k == MaxCalls - 1 || !IsRateLimited(responses[k]) then k + 1
    else CallsFrom(responses, k + 1)
  }

  /** Number of extraction calls made for one chunk: the calls stop at the first
      response that is not a rate-limit error, and after four calls at most. */
  function CallsMade(responses: seq<Outcome>): (calls: nat)
    requires MaxCalls <= |responses|
    ensures 1 <= calls <= MaxCalls
    ensures forall j :: 0 <= j < calls - 1 ==> IsRateLimited(responses[j])
    ensures calls < MaxCalls ==> !IsRateLimited(responses[calls - 1])
  {
    CallsFrom(responses, 0)
  }

  /** The outcome the chunk ends with: the response to its last call. */
  function FinalOutcome(responses: seq<Outcome>): (o: Outcome)
    requires MaxCalls <= |responses|
    ensures o in responses[..MaxCalls]
    ensures IsRateLimited(o) ==> forall j :: 0 <= j < MaxCalls ==> IsRateLimited(responses[j])
  {
    responses[CallsMade(responses) - 1]
  }

  /** The retry loop of src/lib.rs:101-123.  `retries` counts down once per extra call. */
  method ExtractWithRetry(responses: seq<Outcome>) returns (result: Outcome, calls: nat, retries: nat)
    requires MaxCalls <= |responses|
    ensures calls == CallsMade(responses)
    ensures result == responses[calls - 1]
    ensures retries == MaxRetries - (calls - 1)
  {
    retries := MaxRetries;
    result := responses[0];
    calls := 1;
    while retries > 0 && result.Err?
      invariant 1 <= calls <= MaxCalls
      invariant retries == MaxRetries - (calls - 1)
      invariant result == responses[calls - 1]
      invariant forall j :: 0 <= j < calls - 1 ==> IsRateLimited(responses[j])
    {
      if Contains(result.message, RateLimitMarker) {
        retries := retries - 1;
        result := responses[calls];
        calls := calls + 1;
      } else {
        break;
      }
    }
  }

  /** An error without the rate-limit marker is never retried: after rate-limit
      errors on the earlier calls, the chunk ends with that error. */
  lemma NonRateLimitErrorStops(responses: seq<Outcome>, k: nat)
    requires MaxCalls <= |responses|
    requires k < MaxCalls && responses[k].Err? && !Contains(responses[k].message, RateLimitMarker)
    requires forall j :: 0 <= j < k ==> IsRateLimited(responses[j])
    ensures CallsMade(responses) == k + 1
    ensures FinalOutcome(responses) == responses[k]
  {
  }

  /** A chunk answered by a success is called until that success and no further. */
  lemma StopsAtFirstSuccess(responses: seq<Outcome>, k: nat)
    requires MaxCalls <= |responses|
    requires k < MaxCalls && responses[k].Ok?
    requires forall j :: 0 <= j < k ==> IsRateLimited(responses[j])
    ensures CallsMade(responses) == k + 1
    ensures FinalOutcome(responses) == responses[k]
  {
  }

  /** A service that keeps answering with rate-limit errors is called four times and
      the chunk ends with the fourth error. */
  lemma AlwaysRateLimitedUsesAllCalls(responses: seq<Outcome>)
    requires MaxCalls <= |responses|
    requires forall j :: 0 <= j < MaxCalls ==> IsRateLimited(responses[j])
    ensures CallsMade(responses) == MaxCalls
    ensures FinalOutcome(responses).Err?
  {
  }
}
