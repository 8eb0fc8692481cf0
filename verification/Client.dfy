/** The alerts client: conditional requests, the retry loop and the ETag cache (internal/nws/client.go). */
module Client {
  import opened Common
  import opened Config
  import opened AlertTable
  import Retry

  /** What the upstream answers; `current` is the entity tag the server compared with. */
  datatype Answer =
    | TransportError
    | NotModified(current: string)
    | Status(code: int, retryAfter: Option<int>)
    | Success(etag: string, body: Option<seq<Alert>>)

  /** One attempt: how long it takes, its answer, the backoff draw, and whether the context ends while it sleeps. */
  datatype Reply = Reply(took: nat, answer: Answer, draw: nat, cancelled: bool)

  datatype Outcome = Fetched(etag: string, alerts: seq<Alert>) | Unchanged | Failed

  /** Where the loop stands: attempts made so far, when each began, and the total sleep. */
  datatype Walk = Walk(attempt: nat, now: Time, starts: seq<Time>, slept: nat)

  datatype Fetch = Fetch(outcome: Outcome, walk: Walk)

  /** The answer ends the loop, or asks for a retry after this delay, if the header gave one. */
  datatype Verdict = Finished(outcome: Outcome) | Again(retryAfter: Option<int>)

  function VerdictOf(answer: Answer): Verdict {
    match answer
    case TransportError => Again(None)
    case NotModified(_) => Finished(Unchanged)
    case Status(code, retryAfter) =>
      if Retry.IsRetryableStatus(code) then Again(retryAfter) else Finished(Failed)
    case Success(etag, None) => Finished(Failed)
    case Success(etag, Some(alerts)) => Finished(Fetched(etag, alerts))
  }

  function Slept(delay: int): nat {
    if delay <= 0 then 0 else delay
  }

  /** One more attempt has begun and been answered. */
  function Tried(w: Walk, reply: Reply): Walk {
    Walk(w.attempt + 1, w.now + reply.took, w.starts + [w.now], w.slept)
  }

  /** retryAfterErr and retryAfterResp: sleep and go on, or stop. `w.attempt` attempts have been made. */
  function Resume(w: Walk, deadline: Option<Time>, reply: Reply, retryAfter: Option<int>): (r: Option<Walk>)
    requires w.attempt > 0
    ensures r.Some? ==> r.value.attempt == w.attempt < HTTP_RETRY_MAX_ATTEMPTS
  {
    if w.attempt >= HTTP_RETRY_MAX_ATTEMPTS then None
    else
      var delay := Retry.NextDelay(w.now, deadline, w.attempt - 1, reply.draw, retryAfter);
      if delay.None? || (reply.cancelled && delay.value > 0) then None
      else Some(w.(now := w.now + Slept(delay.value), slept := w.slept + Slept(delay.value)))
  }

  /** The loop from one of its states on. */
  function FetchFrom(w: Walk, deadline: Option<Time>, replies: seq<Reply>): Fetch
    requires |replies| >= HTTP_RETRY_MAX_ATTEMPTS && w.attempt < HTTP_RETRY_MAX_ATTEMPTS
    decreases HTTP_RETRY_MAX_ATTEMPTS - w.attempt
  {
    var reply := replies[w.attempt];
    var tried := Tried(w, reply);
    match VerdictOf(reply.answer)
    case Finished(outcome) => Fetch(outcome, tried)
    case Again(retryAfter) =>
      var next := Resume(tried, deadline, reply, retryAfter);
      if next.None? then Fetch(Failed, tried) else FetchFrom(next.value, deadline, replies)
  }

  function FetchAt(start: Time, deadline: Option<Time>, replies: seq<Reply>): Fetch
    requires |replies| >= HTTP_RETRY_MAX_ATTEMPTS
  {
    FetchFrom(Walk(0, start, [], 0), deadline, replies)
  }

  /** From the end of an attempt to the start of the next: what was granted, and nothing when that is negative. */
  ghost predicate PausedAsTold(end: Time, next: Time, deadline: Option<Time>, k: nat, draw: nat,
                               retryAfter: Option<int>)
  {
    exists delay :: Retry.Granted(delay, end, deadline, k, draw, retryAfter)
      && next == if delay > 0 then end + delay else end
  }

  class AlertsClient {
    var etags: map<string, string>

    constructor ()
      ensures etags == map[]
    {
      etags := map[];
    }

    /** The entity tag a request to this endpoint carries; empty when none is cached. */
    function IfNoneMatch(endpoint: string): string
      reads this
    {
      if endpoint in etags then etags[endpoint] else ""
    }

    method RetryAfter(w: Walk, deadline: Option<Time>, reply: Reply, retryAfter: Option<int>) returns (r: Option<Walk>)
      requires w.attempt > 0
      ensures r == Resume(w, deadline, reply, retryAfter)
      ensures r.Some? ==>
        && w.attempt < HTTP_RETRY_MAX_ATTEMPTS && r.value.attempt == w.attempt && r.value.starts == w.starts
        && r.value.now - w.now == r.value.slept - w.slept >= 0
      ensures r.Some? && deadline.Some? ==> r.value.now <= deadline.value - HTTP_RETRY_NEXT_ATTEMPT_FLOOR
      ensures w.attempt < 3 && !reply.cancelled ==> (r.None? <==> Retry.TooLate(w.now, deadline))
      ensures r.Some? && reply.cancelled ==> r.value.now == w.now
      ensures r.Some? ==> PausedAsTold(w.now, r.value.now, deadline, w.attempt - 1, reply.draw, retryAfter)
    {
      if w.attempt >= HTTP_RETRY_MAX_ATTEMPTS {
        return None;
      }
      var delay := Retry.ComputeNextDelay(w.now, deadline, w.attempt - 1, reply.draw, retryAfter);
      hide Retry.Granted;
      if delay.None? {
        return None;
      }
      if reply.cancelled && delay.value > 0 {
        return None;
      }
      return Some(w.(now := w.now + Slept(delay.value), slept := w.slept + Slept(delay.value)));
    }

    /** A 200: the tag is cached before decoding and put back when decoding fails. */
    method Receive(endpoint: string, newETag: string, body: Option<seq<Alert>>) returns (outcome: Outcome)
      modifies this
      ensures outcome == VerdictOf(Success(newETag, body)).outcome
      ensures etags == if body.Some? && newETag != "" then old(etags)[endpoint := newETag] else old(etags)
    {
      var previousETag, hadPreviousETag := "", false;
      if newETag != "" {
        hadPreviousETag := endpoint in etags;
        previousETag := if hadPreviousETag then etags[endpoint] else "";
        etags := etags[endpoint := newETag];
      }
      if body.None? {
        if newETag != "" {
          if hadPreviousETag {
            etags := etags[endpoint := previousETag];
          } else {
            etags := etags - {endpoint};
          }
        }
        return Failed;
      }
      return Fetched(newETag, body.value);
    }

    /** The cache changes only when a payload with an entity tag was decoded. */
    method FetchActiveAlerts(endpoint: string, start: Time, deadline: Option<Time>, replies: seq<Reply>)
      returns (f: Fetch)
      requires |replies| >= HTTP_RETRY_MAX_ATTEMPTS
      modifies this
      ensures f == FetchAt(start, deadline, replies)
      ensures etags ==
        if f.outcome.Fetched? && f.outcome.etag != "" then old(etags)[endpoint := f.outcome.etag] else old(etags)
    {
      var w := Walk(0, start, [], 0);
      while true
        invariant w.attempt < HTTP_RETRY_MAX_ATTEMPTS && etags == old(etags)
        invariant FetchFrom(w, deadline, replies) == FetchAt(start, deadline, replies)
        decreases HTTP_RETRY_MAX_ATTEMPTS - w.attempt
      {
        var reply := replies[w.attempt];
        w := Tried(w, reply);
        var retryAfter: Option<int> := None;
        match reply.answer {
          case TransportError =>
          case NotModified(_) =>
            return Fetch(Unchanged, w);
          case Status(code, header) =>
            if !Retry.IsRetryableStatus(code) {
              return Fetch(Failed, w);
            }
            retryAfter := header;
          case Success(newETag, body) =>
            var outcome := Receive(endpoint, newETag, body);
            return Fetch(outcome, w);
        }
        var next := RetryAfter(w, deadline, reply, retryAfter);
        if next.None? {
          return Fetch(Failed, w);
        }
        w := next.value;
      }
    }
  }

  // ----- retries never outlive the budget -----

  /** Every retry so far began with the floor still left, and the sleep fits before it. */
  predicate Within(start: Time, deadline: Time, w: Walk) {
    && |w.starts| == w.attempt
    && w.now >= start + w.slept
    && (forall k :: 1 <= k < |w.starts| ==> w.starts[k] <= deadline - HTTP_RETRY_NEXT_ATTEMPT_FLOOR)
    && (w.slept == 0 || w.slept <= deadline - start - HTTP_RETRY_NEXT_ATTEMPT_FLOOR)
  }

  lemma ResumeLeavesFloor(start: Time, deadline: Time, w: Walk, reply: Reply, retryAfter: Option<int>)
    requires w.attempt > 0 && Within(start, deadline, w)
    requires Resume(w, Some(deadline), reply, retryAfter).Some?
    ensures
      var next := Resume(w, Some(deadline), reply, retryAfter).value;
      Within(start, deadline, next) && next.now <= deadline - HTTP_RETRY_NEXT_ATTEMPT_FLOOR
  {}

  lemma {:induction false} WalkStaysWithin(start: Time, deadline: Time, w: Walk, replies: seq<Reply>)
    requires |replies| >= HTTP_RETRY_MAX_ATTEMPTS && w.attempt < HTTP_RETRY_MAX_ATTEMPTS
    requires Within(start, deadline, w)
    requires w.attempt > 0 ==> w.now <= deadline - HTTP_RETRY_NEXT_ATTEMPT_FLOOR
    ensures Within(start, deadline, FetchFrom(w, Some(deadline), replies).walk)
    ensures w.attempt < FetchFrom(w, Some(deadline), replies).walk.attempt <= HTTP_RETRY_MAX_ATTEMPTS
    decreases HTTP_RETRY_MAX_ATTEMPTS - w.attempt
  {
    var reply := replies[w.attempt];
    var tried, verdict := Tried(w, reply), VerdictOf(reply.answer);
    assert Within(start, deadline, tried);
    if verdict.Again? {
      var next := Resume(tried, Some(deadline), reply, verdict.retryAfter);
      if next.Some? {
        ResumeLeavesFloor(start, deadline, tried, reply, verdict.retryAfter);
        hide Resume;
        hide Within;
        WalkStaysWithin(start, deadline, next.value, replies);
      }
    }
  }

  /**
   For every answer and every Retry-After value the loop makes at most three attempts, each retry
   begins with at least 250ms of the budget left, and the total sleep is at most the budget less 250ms.
   */
  lemma RetriesStayInBudget(start: Time, deadline: Time, replies: seq<Reply>)
    requires |replies| >= HTTP_RETRY_MAX_ATTEMPTS
    ensures
      var w := FetchAt(start, Some(deadline), replies).walk;
      && 1 <= |w.starts| == w.attempt <= 3
      && (forall k :: 1 <= k < |w.starts| ==> deadline - w.starts[k] >= 250 * MILLISECOND)
      && (w.slept == 0 || w.slept <= deadline - start - 250 * MILLISECOND)
  {
    WalkStaysWithin(start, deadline, Walk(0, start, [], 0), replies);
  }

  /** A failure that a retry may cure. */
  predicate Transient(answer: Answer) {
    answer.TransportError? || (answer.Status? && (answer.code == 429 || 500 <= answer.code <= 599))
  }

  /**
   A refusal that will not go away is never retried, whichever attempt meets it: every attempt but the last
   failed transiently, and the outcome is what the last answer makes it.
   */
  lemma NonTransientIsFinal(start: Time, deadline: Option<Time>, replies: seq<Reply>)
    requires |replies| >= HTTP_RETRY_MAX_ATTEMPTS
    ensures
      var f := FetchAt(start, deadline, replies);
      && 1 <= f.walk.attempt <= HTTP_RETRY_MAX_ATTEMPTS
      && (forall k :: 0 <= k < f.walk.attempt - 1 ==> Transient(replies[k].answer))
      && var last := replies[f.walk.attempt - 1].answer;
         && (f.outcome.Unchanged? <==> last.NotModified?)
         && (f.outcome.Fetched? <==> last.Success? && last.body.Some?)
         && (f.outcome.Fetched? ==> f.outcome == Fetched(last.etag, last.body.value))
  {
    OnlyTransientsAreRetried(Walk(0, start, [], 0), deadline, replies);
  }

  lemma {:induction false} OnlyTransientsAreRetried(w: Walk, deadline: Option<Time>, replies: seq<Reply>)
    requires |replies| >= HTTP_RETRY_MAX_ATTEMPTS && w.attempt < HTTP_RETRY_MAX_ATTEMPTS
    ensures
      var f := FetchFrom(w, deadline, replies);
      && w.attempt < f.walk.attempt <= HTTP_RETRY_MAX_ATTEMPTS
      && (forall k :: w.attempt <= k < f.walk.attempt - 1 ==> Transient(replies[k].answer))
      && var last := replies[f.walk.attempt - 1].answer;
         && (f.outcome.Unchanged? <==> last.NotModified?)
         && (f.outcome.Fetched? <==> last.Success? && last.body.Some?)
         && (f.outcome.Fetched? ==> f.outcome == Fetched(last.etag, last.body.value))
    decreases HTTP_RETRY_MAX_ATTEMPTS - w.attempt
  {
    var reply := replies[w.attempt];
    var tried, verdict := Tried(w, reply), VerdictOf(reply.answer);
    if verdict.Again? {
      var next := Resume(tried, deadline, reply, verdict.retryAfter);
      if next.Some? {
        OnlyTransientsAreRetried(next.value, deadline, replies);
      }
    }
  }

  /** A second attempt follows exactly a transient failure that leaves the floor; the pause is not cut short. */
  lemma SecondAttemptExactly(start: Time, deadline: Option<Time>, replies: seq<Reply>)
    requires |replies| >= HTTP_RETRY_MAX_ATTEMPTS && !replies[0].cancelled
    ensures
      var first := replies[0];
      FetchAt(start, deadline, replies).walk.attempt > 1
      <==> Transient(first.answer) && (deadline.Some? ==> deadline.value - (start + first.took) >= 250 * MILLISECOND)
  {
    var w, reply := Walk(0, start, [], 0), replies[0];
    var tried, verdict := Tried(w, reply), VerdictOf(reply.answer);
    if verdict.Again? {
      var next := Resume(tried, deadline, reply, verdict.retryAfter);
      if next.Some? {
        OnlyTransientsAreRetried(next.value, deadline, replies);
      }
    }
  }

  /** What the answer says about waiting: only a retryable status carries a delay. */
  function HeaderOf(answer: Answer): Option<int> {
    if answer.Status? then answer.retryAfter else None
  }

  lemma ResumePauses(w: Walk, deadline: Option<Time>, reply: Reply, retryAfter: Option<int>)
    requires w.attempt > 0 && Resume(w, deadline, reply, retryAfter).Some?
    ensures
      var next := Resume(w, deadline, reply, retryAfter).value;
      && PausedAsTold(w.now, next.now, deadline, w.attempt - 1, reply.draw, retryAfter)
      && next.attempt == w.attempt && next.starts == w.starts
      && (reply.cancelled ==> next.now == w.now)
  {
    Retry.NextDelayExactly(w.now, deadline, w.attempt - 1, reply.draw, retryAfter);
  }

  /** Attempt k began here, and the next one once it was answered and the pause it earned was over. */
  ghost predicate StartsAsTold(w: Walk, deadline: Option<Time>, replies: seq<Reply>, k: nat)
    requires k + 1 < |w.starts| && k < |replies|
  {
    && PausedAsTold(w.starts[k] + replies[k].took, w.starts[k + 1], deadline, k, replies[k].draw,
                    HeaderOf(replies[k].answer))
    && (replies[k].cancelled ==> w.starts[k + 1] == w.starts[k] + replies[k].took)
  }

  /**
   The retry loop sleeps what it is told: every attempt begins at the end of the one before plus the pause that
   Retry-After asks for, or else the backoff draw, cut to leave 250ms of the budget; after a pause that the context
   cut short there is none.
   */
  lemma AttemptsStartAsTold(start: Time, deadline: Option<Time>, replies: seq<Reply>)
    requires |replies| >= HTTP_RETRY_MAX_ATTEMPTS
    ensures
      var w := FetchAt(start, deadline, replies).walk;
      && 1 <= |w.starts| <= 3 && w.starts[0] == start
      && forall k: nat :: k + 1 < |w.starts| ==> StartsAsTold(w, deadline, replies, k)
  {
    PausesAdd(Walk(0, start, [], 0), deadline, replies);
    NonTransientIsFinal(start, deadline, replies);
  }

  /** The walk `end` goes on from `w`, each later attempt starting as told. */
  ghost predicate GoesOn(w: Walk, end: Walk, deadline: Option<Time>, replies: seq<Reply>) {
    && w.attempt < |end.starts| == end.attempt <= HTTP_RETRY_MAX_ATTEMPTS <= |replies|
    && end.starts[..w.attempt] == w.starts && end.starts[w.attempt] == w.now
    && forall k: nat :: w.attempt <= k && k + 1 < |end.starts| ==> StartsAsTold(end, deadline, replies, k)
  }

  lemma GoesOnFromEarlier(w: Walk, next: Walk, end: Walk, deadline: Option<Time>, replies: seq<Reply>)
    requires |w.starts| == w.attempt && next.attempt == w.attempt + 1 && next.starts == w.starts + [w.now]
    requires GoesOn(next, end, deadline, replies)
    requires
      var reply := replies[w.attempt];
      && PausedAsTold(w.now + reply.took, next.now, deadline, w.attempt, reply.draw, HeaderOf(reply.answer))
      && (reply.cancelled ==> next.now == w.now + reply.took)
    ensures GoesOn(w, end, deadline, replies)
  {
    hide PausedAsTold;
    var n := w.attempt;
    assert end.starts[n] == end.starts[..n + 1][n] == w.now;
    assert end.starts[..n] == end.starts[..n + 1][..n];
    assert StartsAsTold(end, deadline, replies, n);
  }

  lemma {:induction false} PausesAdd(w: Walk, deadline: Option<Time>, replies: seq<Reply>)
    requires |replies| >= HTTP_RETRY_MAX_ATTEMPTS && |w.starts| == w.attempt < HTTP_RETRY_MAX_ATTEMPTS
    ensures GoesOn(w, FetchFrom(w, deadline, replies).walk, deadline, replies)
    decreases HTTP_RETRY_MAX_ATTEMPTS - w.attempt
  {
    var reply := replies[w.attempt];
    var tried, verdict := Tried(w, reply), VerdictOf(reply.answer);
    if verdict.Again? && Resume(tried, deadline, reply, verdict.retryAfter).Some? {
      var next := Resume(tried, deadline, reply, verdict.retryAfter).value;
      var end := FetchFrom(next, deadline, replies).walk;
      assert FetchFrom(w, deadline, replies).walk == end;
      ResumePauses(tried, deadline, reply, verdict.retryAfter);
      hide FetchFrom;
      hide Resume;
      hide PausedAsTold;
      hide GoesOn;
      PausesAdd(next, deadline, replies);
      GoesOnFromEarlier(w, next, end, deadline, replies);
    }
  }
}
