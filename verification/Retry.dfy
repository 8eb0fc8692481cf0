/** The in-cycle retry policy (internal/retry/retry.go). */
module Retry {
  import opened Common
  import opened Config

  predicate IsRetryableStatus(code: int)
    ensures IsRetryableStatus(code) <==> code == 429 || code / 100 == 5
  {
    code == 429 || 500 <= code <= 599
  }

  function PowerOfTwo(n: nat): nat {
    if n == 0 then 1 else 2 * PowerOfTwo(n - 1)
  }

  /** The least of BaseDelay * 2^attempt and MaxDelay. */
  function BackoffCap(attempt: nat): nat {
    var exp := HTTP_RETRY_BASE_DELAY * PowerOfTwo(attempt);
    if exp > HTTP_RETRY_MAX_DELAY then HTTP_RETRY_MAX_DELAY else exp
  }

  lemma {:induction false} CapStays(attempt: nat, later: nat)
    requires attempt <= later && HTTP_RETRY_BASE_DELAY * PowerOfTwo(attempt) >= HTTP_RETRY_MAX_DELAY
    ensures BackoffCap(later) == HTTP_RETRY_MAX_DELAY
    ensures HTTP_RETRY_BASE_DELAY * PowerOfTwo(later) >= HTTP_RETRY_MAX_DELAY
  {
    if attempt == later {
    } else {
      CapStays(attempt, later - 1);
    }
  }

  /** The caps in milliseconds: 500, 1000, and 2000 from the third attempt on. */
  lemma BackoffCaps(attempt: nat)
    ensures BackoffCap(attempt) == (if attempt == 0 then 500 else if attempt == 1 then 1000 else 2000) * MILLISECOND
    ensures BackoffCap(attempt) == Min(500 * MILLISECOND * PowerOfTwo(attempt), 2000 * MILLISECOND)
  {
    assert PowerOfTwo(1) == 2 && PowerOfTwo(2) == 4;
    if attempt >= 2 {
      CapStays(2, attempt);
    }
  }

  /** What is asked for: the header's delay if there is one, else the draw from [0, cap]. */
  predicate Asked(d: int, attempt: nat, draw: nat, retryAfter: Option<int>) {
    if retryAfter.Some? then d == retryAfter.value
    else
      var cap := (if attempt == 0 then 500 else if attempt == 1 then 1000 else 2000) * MILLISECOND;
      d == draw % (cap + 1)
  }

  /** Too little of the budget is left for another attempt. */
  predicate TooLate(now: Time, deadline: Option<Time>) {
    deadline.Some? && deadline.value - now < 250 * MILLISECOND
  }

  /** What is granted: what is asked for, or all the time short of the last 250ms when that is less. */
  ghost predicate Granted(delay: int, now: Time, deadline: Option<Time>, attempt: nat, draw: nat,
                          retryAfter: Option<int>)
  {
    exists d :: Asked(d, attempt, draw, retryAfter)
      && delay == if deadline.Some? then Min(d, deadline.value - now - 250 * MILLISECOND) else d
  }

  /** The delay is refused exactly when it is too late, and otherwise is the one delay to grant. */
  lemma NextDelayExactly(now: Time, deadline: Option<Time>, attempt: nat, draw: nat, retryAfter: Option<int>)
    ensures
      var r := NextDelay(now, deadline, attempt, draw, retryAfter);
      && (r.None? <==> TooLate(now, deadline))
      && forall delay :: r == Some(delay)
           <==> !TooLate(now, deadline) && Granted(delay, now, deadline, attempt, draw, retryAfter)
  {
    BackoffCaps(attempt);
    var cap := BackoffCap(attempt);
    var wanted: int := if retryAfter.Some? then retryAfter.value else draw % (cap + 1);
    assert Asked(wanted, attempt, draw, retryAfter);
  }

  /** The doubling loop with its early exit, and a uniform draw from [0, cap]. */
  method BackoffDelay(attempt: nat, draw: nat) returns (delay: nat)
    ensures delay == draw % (BackoffCap(attempt) + 1)
    ensures Asked(delay, attempt, draw, None)
    ensures delay <= HTTP_RETRY_BASE_DELAY * PowerOfTwo(attempt) && delay <= HTTP_RETRY_MAX_DELAY
  {
    var exp := HTTP_RETRY_BASE_DELAY;
    var i := 0;
    while i < attempt
      invariant 0 <= i <= attempt
      invariant exp == HTTP_RETRY_BASE_DELAY * PowerOfTwo(i) <= HTTP_RETRY_MAX_DELAY
    {
      exp := exp * 2;
      if exp > HTTP_RETRY_MAX_DELAY {
        exp := HTTP_RETRY_MAX_DELAY;
        CapStays(i + 1, attempt);
        break;
      }
      i := i + 1;
    }
    assert exp == BackoffCap(attempt);
    delay := draw % (exp + 1);
    BackoffCaps(attempt);
  }

  /** NextDelay: None when too little of the budget is left to justify another attempt. */
  function NextDelay(now: Time, deadline: Option<Time>, attempt: nat, draw: nat, retryAfter: Option<int>): Option<int> {
    var delay := if retryAfter.Some? then retryAfter.value else draw % (BackoffCap(attempt) + 1);
    if deadline.None? then Some(delay)
    else
      var remaining := deadline.value - now;
      if remaining < HTTP_RETRY_NEXT_ATTEMPT_FLOOR then None
      else
        var capped := remaining - HTTP_RETRY_NEXT_ATTEMPT_FLOOR;
        Some(if delay > capped then capped else delay)
  }

  method ComputeNextDelay(now: Time, deadline: Option<Time>, attempt: nat, draw: nat, retryAfter: Option<int>)
    returns (r: Option<int>)
    ensures r == NextDelay(now, deadline, attempt, draw, retryAfter)
    ensures r.None? <==> TooLate(now, deadline)
    ensures r.Some? ==> Granted(r.value, now, deadline, attempt, draw, retryAfter)
    ensures r.Some? && deadline.Some? ==> now + r.value <= deadline.value - HTTP_RETRY_NEXT_ATTEMPT_FLOOR
  {
    NextDelayExactly(now, deadline, attempt, draw, retryAfter);
    var delay: int := BackoffDelay(attempt, draw);
    if retryAfter.Some? {
      delay := retryAfter.value;
    }
    if deadline.Some? {
      var remaining := deadline.value - now;
      if remaining < HTTP_RETRY_NEXT_ATTEMPT_FLOOR {
        return None;
      }
      if delay > remaining - HTTP_RETRY_NEXT_ATTEMPT_FLOOR {
        delay := remaining - HTTP_RETRY_NEXT_ATTEMPT_FLOOR;
      }
    }
    return Some(delay);
  }
}
