/** How long the publish fan-out takes: one put with its retry, and the bounded-concurrency schedule. */
module Publish {
  import opened Common
  import opened Config

  // ----- attemptPublish -----

  /**
   One attempt: how long it takes, whether it succeeds, and how far into the pause after it the phase ends, if
   it does.
   */
  datatype Attempt = Attempt(took: nat, ok: bool, phaseEnds: Option<nat>)

  /** The last attempt's own error, or that of the phase. */
  datatype PutError = AttemptFailed(index: nat) | PhaseEnded

  datatype PutOutcome = PutOutcome(err: Option<PutError>, tries: nat, elapsed: nat)

  /** The attempts that are made: up to the first success, the last one allowed, or the end of the phase. */
  function Tries(attempts: seq<Attempt>, maxAttempts: nat, n: nat): (k: nat)
    requires n < maxAttempts <= |attempts|
    ensures n < k <= maxAttempts && (forall i :: n <= i < k - 1 ==> !attempts[i].ok && attempts[i].phaseEnds.None?)
    ensures k < maxAttempts ==> attempts[k - 1].ok || attempts[k - 1].phaseEnds.Some?
    decreases maxAttempts - n
  {
    if attempts[n].ok || n == maxAttempts - 1 || attempts[n].phaseEnds.Some? then n + 1
    else Tries(attempts, maxAttempts, n + 1)
  }

  /** From the first attempt to the end of the n-th, with a pause between neighbours. */
  function Elapsed(attempts: seq<Attempt>, n: nat, retryDelay: nat): nat
    requires 0 < n <= |attempts|
  {
    if n == 1 then attempts[0].took else Elapsed(attempts, n - 1, retryDelay) + retryDelay + attempts[n - 1].took
  }

  function TimeTaken(attempts: seq<Attempt>, n: nat): nat
    requires n <= |attempts|
  {
    if n == 0 then 0 else TimeTaken(attempts, n - 1) + attempts[n - 1].took
  }

  /** All the attempts and all the pauses between them. */
  lemma {:induction false} ElapsedIsSum(attempts: seq<Attempt>, n: nat, retryDelay: nat)
    requires 0 < n <= |attempts|
    ensures Elapsed(attempts, n, retryDelay) == TimeTaken(attempts, n) + (n - 1) * retryDelay
  {
    if n == 1 {
      assert TimeTaken(attempts, 1) == TimeTaken(attempts, 0) + attempts[0].took;
    } else {
      ElapsedIsSum(attempts, n - 1, retryDelay);
      assert (n - 1) * retryDelay == (n - 2) * retryDelay + retryDelay;
    }
  }

  /** The part of the last pause that was slept before the phase ended. */
  function LastPause(attempts: seq<Attempt>, maxAttempts: nat, n: nat): nat
    requires 0 < n <= maxAttempts <= |attempts|
  {
    if n < maxAttempts && !attempts[n - 1].ok && attempts[n - 1].phaseEnds.Some? then attempts[n - 1].phaseEnds.value
    else 0
  }

  lemma {:induction false} ElapsedBound(attempts: seq<Attempt>, n: nat, timeout: nat, retryDelay: nat)
    requires 0 < n <= |attempts| && forall i :: 0 <= i < n ==> attempts[i].took <= timeout
    ensures Elapsed(attempts, n, retryDelay) <= n * timeout + (n - 1) * retryDelay
  {
    if n == 1 {
    } else {
      ElapsedBound(attempts, n - 1, timeout, retryDelay);
      assert n * timeout == (n - 1) * timeout + timeout;
      assert (n - 1) * retryDelay == (n - 2) * retryDelay + retryDelay;
    }
  }

  /** A put succeeds exactly when its last attempt does; a phase that ends during a pause has the last word. */
  method AttemptPublish(attempts: seq<Attempt>, maxAttempts: nat, retryDelay: nat) returns (r: PutOutcome)
    requires 0 < maxAttempts <= |attempts|
    ensures r.tries == Tries(attempts, maxAttempts, 0)
    ensures r.elapsed == Elapsed(attempts, r.tries, retryDelay) + LastPause(attempts, maxAttempts, r.tries)
    ensures r.elapsed == TimeTaken(attempts, r.tries) + (r.tries - 1) * retryDelay
      + if r.err == Some(PhaseEnded) && attempts[r.tries - 1].phaseEnds.Some? then attempts[r.tries - 1].phaseEnds.value
        else 0
    ensures r.err.None? <==> exists i :: 0 <= i < r.tries && attempts[i].ok
    ensures r.err == Some(PhaseEnded) <==> r.tries < maxAttempts && !attempts[r.tries - 1].ok
    ensures r.err.Some? && r.tries == maxAttempts ==> r.err == Some(AttemptFailed(maxAttempts - 1))
  {
    ElapsedIsSum(attempts, Tries(attempts, maxAttempts, 0), retryDelay);
    var elapsed: nat := 0;
    for attempt := 0 to maxAttempts
      invariant attempt < maxAttempts && Tries(attempts, maxAttempts, attempt) == Tries(attempts, maxAttempts, 0)
      invariant forall i :: 0 <= i < attempt ==> !attempts[i].ok
      invariant elapsed == if attempt == 0 then 0 else Elapsed(attempts, attempt, retryDelay) + retryDelay
    {
      var a := attempts[attempt];
      elapsed := elapsed + a.took;
      if a.ok {
        return PutOutcome(None, attempt + 1, elapsed);
      }
      if attempt == maxAttempts - 1 {
        return PutOutcome(Some(AttemptFailed(attempt)), attempt + 1, elapsed);
      }
      if a.phaseEnds.Some? {
        return PutOutcome(Some(PhaseEnded), attempt + 1, elapsed + a.phaseEnds.value);
      }
      elapsed := elapsed + retryDelay;
    }
  }

  /** Whether a put of these attempts succeeds. */
  predicate PutSucceeds(attempts: seq<Attempt>)
    requires |attempts| >= MAX_TRIES
  {
    exists i :: 0 <= i < Tries(attempts, MAX_TRIES, 0) && attempts[i].ok
  }

  /** A put that keeps its per-attempt timeouts takes at most two of them and one pause: 6.2 seconds. */
  lemma PutIsBounded(attempts: seq<Attempt>)
    requires |attempts| >= MAX_TRIES
    requires forall i :: 0 <= i < |attempts| ==>
      && attempts[i].took <= PER_PUBLISH_PUT_TIMEOUT
      && (attempts[i].phaseEnds.Some? ==> attempts[i].phaseEnds.value <= PUBLISH_PUT_RETRY_DELAY)
    ensures
      var tries := Tries(attempts, MAX_TRIES, 0);
      && 1 <= tries <= 2
      && Elapsed(attempts, tries, PUBLISH_PUT_RETRY_DELAY) + LastPause(attempts, MAX_TRIES, tries) <= MAX_PUT
  {
    ElapsedBound(attempts, Tries(attempts, MAX_TRIES, 0), PER_PUBLISH_PUT_TIMEOUT, PUBLISH_PUT_RETRY_DELAY);
  }

  /** And 6.2 seconds are taken by a put both attempts of which time out. */
  lemma PutBoundIsReached(attempts: seq<Attempt>)
    requires |attempts| >= 2 && |attempts| >= MAX_TRIES
    requires forall i :: 0 <= i < |attempts| ==>
      attempts[i].took == 3000 * MILLISECOND && !attempts[i].ok && attempts[i].phaseEnds.None?
    ensures
      var tries := Tries(attempts, MAX_TRIES, 0);
      && tries == 2
      && Elapsed(attempts, tries, PUBLISH_PUT_RETRY_DELAY) + LastPause(attempts, MAX_TRIES, tries) == 6200 * MILLISECOND
      && MAX_PUT == 6200 * MILLISECOND
  {
    assert Tries(attempts, MAX_TRIES, 1) == 2;
    assert Elapsed(attempts, 2, PUBLISH_PUT_RETRY_DELAY)
        == Elapsed(attempts, 1, PUBLISH_PUT_RETRY_DELAY) + PUBLISH_PUT_RETRY_DELAY + attempts[1].took;
  }

  const MAX_TRIES := PUBLISH_PUT_MAX_RETRIES + 1

  const MAX_PUT := 2 * PER_PUBLISH_PUT_TIMEOUT + PUBLISH_PUT_RETRY_DELAY

  // ----- the schedule -----

  /** Put j holds a slot at time t. */
  predicate Holds(start: seq<Time>, lasts: seq<nat>, j: nat, t: Time)
    requires j < |start| == |lasts|
  {
    start[j] <= t < start[j] + lasts[j]
  }

  function Holding(start: seq<Time>, lasts: seq<nat>, n: nat, t: Time): nat
    requires n <= |start| == |lasts|
  {
    if n == 0 then 0 else Holding(start, lasts, n - 1, t) + if Holds(start, lasts, n - 1, t) then 1 else 0
  }

  /** When the launcher reaches area i. */
  function Ready(start: seq<Time>, i: nat): Time
    requires i <= |start|
  {
    if i == 0 then 0 else start[i - 1]
  }

  /** Put i starts as soon as the launcher has reached it and a slot is free, and no sooner. */
  predicate StartsWhenFree(start: seq<Time>, lasts: seq<nat>, slots: nat, i: nat)
    requires i < |start| == |lasts|
  {
    && start[i] >= Ready(start, i)
    && Holding(start, lasts, i, start[i]) < slots
    && (forall t :: Ready(start, i) <= t < start[i] ==> Holding(start, lasts, i, t) >= slots)
  }

  /** What a semaphore of `slots` does to a loop that launches the areas in order. */
  predicate SemaphoreSchedule(start: seq<Time>, lasts: seq<nat>, slots: nat)
    requires |start| == |lasts|
  {
    forall i: nat :: i < |start| ==> StartsWhenFree(start, lasts, slots, i)
  }

  lemma {:induction false} SameStartsSameHolding(a: seq<Time>, b: seq<Time>, lastsA: seq<nat>, lastsB: seq<nat>,
                                                 n: nat, t: Time)
    requires n <= |a| == |lastsA| && n <= |b| == |lastsB|
    requires forall j :: 0 <= j < n ==> a[j] == b[j] && lastsA[j] == lastsB[j]
    ensures Holding(a, lastsA, n, t) == Holding(b, lastsB, n, t)
  {
    if n == 0 {
    } else {
      SameStartsSameHolding(a, b, lastsA, lastsB, n - 1, t);
    }
  }

  lemma {:induction false} NobodyHolds(start: seq<Time>, lasts: seq<nat>, n: nat, t: Time)
    requires n <= |start| == |lasts| && forall j :: 0 <= j < n ==> start[j] + lasts[j] <= t
    ensures Holding(start, lasts, n, t) == 0
  {
    if n == 0 {
    } else {
      NobodyHolds(start, lasts, n - 1, t);
    }
  }

  /** The first moment from `t` on with a free slot; all puts are over by `latest`. */
  lemma FirstFree(start: seq<Time>, lasts: seq<nat>, slots: nat, t: Time, latest: Time) returns (at: Time)
    requires |start| == |lasts| && slots > 0
    requires forall j :: 0 <= j < |start| ==> start[j] + lasts[j] <= latest
    ensures at >= t && Holding(start, lasts, |start|, at) < slots
    ensures forall u :: t <= u < at ==> Holding(start, lasts, |start|, u) >= slots
    decreases if t < latest then latest - t else 0
  {
    if Holding(start, lasts, |start|, t) < slots {
      at := t;
    } else {
      if t >= latest {
        NobodyHolds(start, lasts, |start|, t);
      }
      at := FirstFree(start, lasts, slots, t + 1, latest);
    }
  }

  lemma {:induction false} LatestEnd(start: seq<Time>, lasts: seq<nat>) returns (latest: Time)
    requires |start| == |lasts|
    ensures forall j :: 0 <= j < |start| ==> start[j] + lasts[j] <= latest
  {
    latest := 0;
    if start == [] {
    } else {
      var n := |start| - 1;
      latest := LatestEnd(start[..n], lasts[..n]);
      assert forall j :: 0 <= j < n ==> start[j] == start[..n][j] && lasts[j] == lasts[..n][j];
      if latest < start[n] + lasts[n] {
        latest := start[n] + lasts[n];
      }
    }
  }

  /** With at least one slot every list of durations has a schedule. */
  lemma {:induction false} ScheduleExists(lasts: seq<nat>, slots: nat) returns (start: seq<Time>)
    requires slots > 0
    ensures |start| == |lasts| && SemaphoreSchedule(start, lasts, slots)
  {
    if lasts == [] {
      return [];
    }
    var n := |lasts| - 1;
    var before := ScheduleExists(lasts[..n], slots);
    var latest := LatestEnd(before, lasts[..n]);
    var at := FirstFree(before, lasts[..n], slots, Ready(before, n), latest);
    start := before + [at];
    assert start[..n] == before;
    forall i: nat | i <= n ensures StartsWhenFree(start, lasts, slots, i) {
      if i < n {
        OneMoreArea(before, start, lasts, slots, i);
      } else {
        forall t: Time ensures Holding(start, lasts, n, t) == Holding(before, lasts[..n], n, t) {
          SameStartsSameHolding(start, before, lasts, lasts[..n], n, t);
        }
      }
    }
  }

  lemma OneMoreArea(before: seq<Time>, start: seq<Time>, lasts: seq<nat>, slots: nat, i: nat)
    requires i < |before| < |start| == |lasts| && start[..|before|] == before
    requires StartsWhenFree(before, lasts[..|before|], slots, i)
    ensures StartsWhenFree(start, lasts, slots, i)
  {
    var n := |before|;
    assert forall j :: 0 <= j < n ==> start[j] == start[..n][j];
    forall t: Time ensures Holding(start, lasts, i, t) == Holding(before, lasts[..n], i, t) {
      SameStartsSameHolding(start, before, lasts, lasts[..n], i, t);
    }
    hide Holding;
  }

  /** And only one: the durations alone decide when each put starts. */
  lemma {:induction false} ScheduleIsUnique(a: seq<Time>, b: seq<Time>, lasts: seq<nat>, slots: nat, n: nat)
    requires |a| == |b| == |lasts| && n <= |a|
    requires SemaphoreSchedule(a, lasts, slots) && SemaphoreSchedule(b, lasts, slots)
    ensures forall i :: 0 <= i < n ==> a[i] == b[i]
  {
    if n == 0 {
    } else {
      var i := n - 1;
      ScheduleIsUnique(a, b, lasts, slots, i);
      SameStartsSameHolding(a, b, lasts, lasts, i, a[i]);
      SameStartsSameHolding(a, b, lasts, lasts, i, b[i]);
      hide Holding;
      assert StartsWhenFree(a, lasts, slots, i) && StartsWhenFree(b, lasts, slots, i);
    }
  }

  function Sum(lasts: seq<nat>, n: nat): nat
    requires n <= |lasts|
  {
    if n == 0 then 0 else Sum(lasts, n - 1) + lasts[n - 1]
  }

  /** Slot-time used by the first n puts before time t. */
  function Used(start: seq<Time>, lasts: seq<nat>, n: nat, t: nat): nat
    requires n <= |start| == |lasts|
  {
    if t == 0 then 0 else Used(start, lasts, n, t - 1) + Holding(start, lasts, n, t - 1)
  }

  /** Time put j has held its slot before time t. */
  function HeldBefore(start: seq<Time>, lasts: seq<nat>, j: nat, t: nat): nat
    requires j < |start| == |lasts|
  {
    if t == 0 then 0 else HeldBefore(start, lasts, j, t - 1) + if Holds(start, lasts, j, t - 1) then 1 else 0
  }

  lemma {:induction false} HeldAtMostItsLength(start: seq<Time>, lasts: seq<nat>, j: nat, t: nat)
    requires j < |start| == |lasts| && start[j] >= 0
    ensures HeldBefore(start, lasts, j, t) <= lasts[j]
    ensures HeldBefore(start, lasts, j, t) <= if t <= start[j] then 0 else t - start[j]
  {
    if t == 0 {
    } else {
      HeldAtMostItsLength(start, lasts, j, t - 1);
    }
  }

  /** Counting by put instead of by time. */
  lemma {:induction false} UsedByPut(start: seq<Time>, lasts: seq<nat>, n: nat, t: nat)
    requires 0 < n <= |start| == |lasts|
    ensures Used(start, lasts, n, t) == Used(start, lasts, n - 1, t) + HeldBefore(start, lasts, n - 1, t)
  {
    if t == 0 {
    } else {
      UsedByPut(start, lasts, n, t - 1);
    }
  }

  lemma {:induction false} UsedNothing(start: seq<Time>, lasts: seq<nat>, t: nat)
    requires |start| == |lasts|
    ensures Used(start, lasts, 0, t) == 0
  {
    if t == 0 {
    } else {
      UsedNothing(start, lasts, t - 1);
    }
  }

  lemma {:induction false} UsedAtMostTheSum(start: seq<Time>, lasts: seq<nat>, n: nat, t: nat)
    requires n <= |start| == |lasts| && forall j :: 0 <= j < n ==> start[j] >= 0
    ensures Used(start, lasts, n, t) <= Sum(lasts, n)
  {
    if n == 0 {
      UsedNothing(start, lasts, t);
    } else {
      UsedByPut(start, lasts, n, t);
      UsedAtMostTheSum(start, lasts, n - 1, t);
      HeldAtMostItsLength(start, lasts, n - 1, t);
    }
  }

  lemma {:induction false} StartsAreNonNegative(start: seq<Time>, lasts: seq<nat>, slots: nat, i: nat)
    requires |start| == |lasts| && SemaphoreSchedule(start, lasts, slots) && i < |start|
    ensures start[i] >= 0
  {
    if i == 0 {
    } else {
      StartsAreNonNegative(start, lasts, slots, i - 1);
    }
    assert StartsWhenFree(start, lasts, slots, i);
  }

  /** Until area i starts, every slot is held at every moment. */
  lemma {:induction false} AllSlotsBusyBefore(start: seq<Time>, lasts: seq<nat>, slots: nat, i: nat, t: Time)
    requires |start| == |lasts| && SemaphoreSchedule(start, lasts, slots) && i < |start|
    requires 0 <= t < start[i]
    ensures Holding(start, lasts, i, t) >= slots
  {
    assert StartsWhenFree(start, lasts, slots, i);
    if t >= Ready(start, i) {
    } else {
      AllSlotsBusyBefore(start, lasts, slots, i - 1, t);
    }
  }

  lemma {:induction false} UsedIsFull(start: seq<Time>, lasts: seq<nat>, slots: nat, i: nat, t: nat)
    requires |start| == |lasts| && SemaphoreSchedule(start, lasts, slots) && i < |start| && t <= start[i]
    ensures Used(start, lasts, i, t) >= slots * t
  {
    if t == 0 {
    } else {
      UsedIsFull(start, lasts, slots, i, t - 1);
      AllSlotsBusyBefore(start, lasts, slots, i, t - 1);
      assert slots * t == slots * (t - 1) + slots;
    }
  }

  /** No state starves: area i starts no later than an equal share of the puts before it. */
  lemma StartsWithinItsShare(start: seq<Time>, lasts: seq<nat>, slots: nat, i: nat)
    requires |start| == |lasts| && SemaphoreSchedule(start, lasts, slots) && i < |start|
    ensures slots * start[i] <= Sum(lasts, i)
  {
    forall j: nat | j <= i ensures start[j] >= 0 {
      StartsAreNonNegative(start, lasts, slots, j);
    }
    UsedIsFull(start, lasts, slots, i, start[i]);
    UsedAtMostTheSum(start, lasts, i, start[i]);
  }

  lemma {:induction false} SumSplits(lasts: seq<nat>, i: nat, n: nat)
    requires i < n <= |lasts|
    ensures Sum(lasts, i) + lasts[i] <= Sum(lasts, n)
  {
    if i == n - 1 {
    } else {
      SumSplits(lasts, i, n - 1);
    }
  }

  /**
   The fan-out with four slots: each put has finished by a quarter of the total and three quarters of
   the longest, one hung state notwithstanding.
   */
  lemma FanOutDoesNotStarve(start: seq<Time>, lasts: seq<nat>, longest: nat, i: nat)
    requires |start| == |lasts| && SemaphoreSchedule(start, lasts, PUBLISH_CONCURRENCY) && i < |start|
    requires forall j :: 0 <= j < |lasts| ==> lasts[j] <= longest
    ensures 4 * start[i] <= Sum(lasts, i)
    ensures 4 * (start[i] + lasts[i]) <= Sum(lasts, |lasts|) + 3 * longest
  {
    StartsWithinItsShare(start, lasts, PUBLISH_CONCURRENCY, i);
    SumSplits(lasts, i, |lasts|);
  }

  lemma {:induction false} SumAtMost(lasts: seq<nat>, n: nat, most: nat)
    requires n <= |lasts| && forall j :: 0 <= j < |lasts| ==> lasts[j] <= most
    ensures Sum(lasts, n) <= n * most
  {
    if n == 0 {
    } else {
      SumAtMost(lasts, n - 1, most);
      assert n * most == (n - 1) * most + most;
    }
  }

  /** With every put held to two attempts of 3s and a 200ms pause, the last of n areas ends by (n + 3) * 1.55s. */
  lemma FanOutEndsInTime(start: seq<Time>, lasts: seq<nat>, i: nat)
    requires |start| == |lasts| && SemaphoreSchedule(start, lasts, PUBLISH_CONCURRENCY) && i < |start|
    requires forall j :: 0 <= j < |lasts| ==> lasts[j] <= MAX_PUT
    ensures start[i] + lasts[i] <= (|lasts| + 3) * 1550 * MILLISECOND
  {
    FanOutDoesNotStarve(start, lasts, MAX_PUT, i);
    SumAtMost(lasts, |lasts|, MAX_PUT);
  }
}
