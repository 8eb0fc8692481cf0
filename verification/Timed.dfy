/**
 The publish fan-out with a clock: the machine of `Fanout` in which every goroutine acts as soon as it can
 and the put of area w lasts `lasts[w]`.
 */
module TimedFanout {
  import opened Common
  import opened Config
  import opened Fanout
  import opened Publish

  /** `started[w]` is when worker w began its put; the clock is at zero when the fan-out begins. */
  datatype Timed = Timed(s: Fanout.State, now: nat, started: seq<nat>)

  datatype Move = Do(step: Fanout.Step) | Tick

  function AtStart(job: Job): Timed {
    Timed(Begin(job), 0, [])
  }

  /** Nothing can happen but the end of a put. */
  ghost predicate Quiet(s: Fanout.State) {
    forall step :: Enabled(s, step) ==> step.FinishPut?
  }

  /** Whether the put of worker w is in flight and ends at this moment. */
  predicate DueAt(lasts: seq<nat>, t: Timed, w: nat) {
    At(t.s, w, Putting) && w < |t.started| && w < |lasts| && t.now == t.started[w] + lasts[w]
  }

  /** A put ends when its time has come, and the clock moves on only when nothing else can. */
  ghost predicate Allowed(lasts: seq<nat>, t: Timed, m: Move) {
    match m
    case Do(step) => Enabled(t.s, step) && (step.FinishPut? ==> DueAt(lasts, t, step.w))
    case Tick => !t.s.launcher.Returned? && Quiet(t.s) && forall w :: !DueAt(lasts, t, w)
  }

  ghost function Make(job: Job, lasts: seq<nat>, t: Timed, m: Move): Timed
    requires WellFormed(job) && |t.s.workers| == |job.areas| && Allowed(lasts, t, m)
  {
    match m
    case Do(step) =>
      Timed(Fanout.Apply(job, t.s, step), t.now, if step.Spawn? then t.started + [t.now] else t.started)
    case Tick => t.(now := t.now + 1)
  }

  ghost predicate Moves(job: Job, lasts: seq<nat>, t: Timed, moves: seq<Move>)
    requires WellFormed(job) && |t.s.workers| == |job.areas|
    decreases |moves|
  {
    moves == [] || (Allowed(lasts, t, moves[0]) && Moves(job, lasts, Make(job, lasts, t, moves[0]), moves[1..]))
  }

  ghost function Then(job: Job, lasts: seq<nat>, t: Timed, moves: seq<Move>): (r: Timed)
    requires WellFormed(job) && |t.s.workers| == |job.areas| && Moves(job, lasts, t, moves)
    ensures |r.s.workers| == |job.areas|
    decreases |moves|
  {
    if moves == [] then t else Then(job, lasts, Make(job, lasts, t, moves[0]), moves[1..])
  }

  // ----- counting the slots held -----

  lemma {:induction false} WeightOneMore(s: seq<Phase>, n: nat, f: Phase -> int)
    requires n < |s|
    ensures Weight(s[..n + 1], f) == Weight(s[..n], f) + f(s[n])
  {
    if n == 0 {
      assert s[..1] == [s[0]] && s[..1][1..] == [] && s[..0] == [];
    } else {
      WeightOneMore(s[1..], n - 1, f);
      assert s[..n + 1][1..] == s[1..][..n] && s[..n][1..] == s[1..][..n - 1];
    }
  }

  /** Workers that do not weigh may be left off. */
  lemma {:induction false} WeightOfLaunched(s: seq<Phase>, n: nat, f: Phase -> int)
    requires n <= |s| && forall w :: n <= w < |s| ==> f(s[w]) == 0
    ensures Weight(s, f) == Weight(s[..n], f)
    decreases |s| - n
  {
    if n == |s| {
      assert s[..n] == s;
    } else {
      WeightOfLaunched(s, n + 1, f);
      WeightOneMore(s, n, f);
    }
  }

  /** The launched part of the machine: which puts are over, and which are in flight. */
  predicate PutsOnTime(lasts: seq<nat>, t: Timed) {
    && t.s.next <= |lasts| == |t.s.workers| && |t.started| == t.s.next
    && forall w: nat :: w < t.s.next ==>
         && t.started[w] <= t.now
         && (if t.s.workers[w].Putting? then t.now <= t.started[w] + lasts[w] else t.started[w] + lasts[w] <= t.now)
  }

  /** A put that holds a slot by the clock holds one in the machine. */
  lemma {:induction false} HoldersHoldSlots(lasts: seq<nat>, t: Timed, n: nat)
    requires PutsOnTime(lasts, t) && n <= t.s.next
    ensures Holding(t.started, lasts[..t.s.next], n, t.now) <= Weight(t.s.workers[..n], HoldsSlot)
  {
    if n == 0 {
    } else {
      HoldersHoldSlots(lasts, t, n - 1);
      WeightOneMore(t.s.workers, n - 1, HoldsSlot);
    }
  }

  /** And the other way round when nothing is due and nothing else can happen. */
  lemma {:induction false} SlotsAreHeld(lasts: seq<nat>, t: Timed, n: nat)
    requires PutsOnTime(lasts, t) && n <= t.s.next
    requires forall w: nat :: w < t.s.next ==> !DueAt(lasts, t, w)
    requires forall w: nat :: w < t.s.next ==> !t.s.workers[w].Recording? && !t.s.workers[w].Releasing?
    ensures Holding(t.started, lasts[..t.s.next], n, t.now) >= Weight(t.s.workers[..n], HoldsSlot)
  {
    if n == 0 {
    } else {
      SlotsAreHeld(lasts, t, n - 1);
      WeightOneMore(t.s.workers, n - 1, HoldsSlot);
      assert !DueAt(lasts, t, n - 1);
    }
  }

  // ----- the invariant -----

  /** Since the launcher reached the next area every slot has been held. */
  predicate WaitedForSlot(lasts: seq<nat>, t: Timed)
    requires t.s.next == |t.started| <= |lasts|
  {
    forall u :: Ready(t.started, t.s.next) <= u < t.now ==>
      Holding(t.started, lasts[..t.s.next], t.s.next, u) >= PUBLISH_CONCURRENCY
  }

  /** The clock never runs past the end of the last put. */
  predicate NotPastLastEnd(lasts: seq<nat>, t: Timed)
    requires t.s.next == |t.started| <= |lasts|
  {
    t.now == 0 || exists w: nat :: w < t.s.next && t.now <= t.started[w] + lasts[w]
  }

  ghost predicate TimedInvariant(job: Job, lasts: seq<nat>, t: Timed)
    requires WellFormed(job)
  {
    && Fanout.Invariant(job, t.s) && PutsOnTime(lasts, t)
    && SemaphoreSchedule(t.started, lasts[..t.s.next], PUBLISH_CONCURRENCY)
    && (t.s.next < |job.areas| ==> WaitedForSlot(lasts, t))
    && NotPastLastEnd(lasts, t)
  }

  /** When only ends of puts are left, every slot is held by a put in flight. */
  lemma QuietMeansFull(job: Job, lasts: seq<nat>, t: Timed)
    requires WellFormed(job) && Fanout.Invariant(job, t.s) && PutsOnTime(lasts, t)
    requires Allowed(lasts, t, Tick) && t.s.next < |job.areas|
    ensures Holding(t.started, lasts[..t.s.next], t.s.next, t.now) >= PUBLISH_CONCURRENCY
  {
    var s := t.s;
    assert !Enabled(s, Add) && !Enabled(s, Acquire) && !Enabled(s, Spawn);
    assert s.launcher.Acquiring? && s.slots >= PUBLISH_CONCURRENCY;
    NothingToRelease(s);
    SlotsAreHeld(lasts, t, s.next);
    WeightOfLaunched(s.workers, s.next, HoldsSlot);
  }

  lemma NothingToRelease(s: Fanout.State)
    requires Counts(s) && Quiet(s)
    ensures forall w: nat :: w < |s.workers| ==> !s.workers[w].Recording? && !s.workers[w].Releasing?
  {
    forall w: nat | w < |s.workers| ensures !s.workers[w].Recording? && !s.workers[w].Releasing? {
      assert !Enabled(s, Record(w)) && !Enabled(s, Release(w));
      WeightPositive(s.workers, HoldsSlot);
      assert Weight(s.workers, HoldsSlot) >= HoldsSlot(s.workers[w]);
    }
  }

  lemma TickKeepsInvariant(job: Job, lasts: seq<nat>, t: Timed)
    requires WellFormed(job) && TimedInvariant(job, lasts, t) && Allowed(lasts, t, Tick)
    ensures TimedInvariant(job, lasts, Make(job, lasts, t, Tick))
  {
    if t.s.next < |job.areas| {
      QuietMeansFull(job, lasts, t);
    }
    var step := NeverStuck(job, t.s);
    assert step.FinishPut? && !DueAt(lasts, t, step.w);
    forall w: nat | w < t.s.next && t.s.workers[w].Putting? ensures t.now + 1 <= t.started[w] + lasts[w] {
      assert !DueAt(lasts, t, w);
    }
  }

  /** The launcher starts the next put: it has a slot, and waited for it no longer than it had to. */
  lemma SpawnKeepsSchedule(job: Job, lasts: seq<nat>, t: Timed)
    requires WellFormed(job) && TimedInvariant(job, lasts, t) && Enabled(t.s, Spawn)
    ensures
      var n := t.s.next;
      SemaphoreSchedule(t.started + [t.now], lasts[..n + 1], PUBLISH_CONCURRENCY)
  {
    var n, start := t.s.next, t.started + [t.now];
    var known := lasts[..n + 1];
    HoldersHoldSlots(lasts, t, n);
    WeightOfLaunched(t.s.workers, n, HoldsSlot);
    assert known[..n] == lasts[..n] && start[..n] == t.started;
    forall i: nat | i <= n ensures StartsWhenFree(start, known, PUBLISH_CONCURRENCY, i) {
      if i < n {
        assert StartsWhenFree(t.started, lasts[..n], PUBLISH_CONCURRENCY, i);
        OneMoreArea(t.started, start, known, PUBLISH_CONCURRENCY, i);
      } else {
        forall u: Time ensures Holding(start, known, n, u) == Holding(t.started, lasts[..n], n, u) {
          SameStartsSameHolding(start, t.started, known, lasts[..n], n, u);
        }
      }
    }
  }

  lemma SpawnKeepsInvariant(job: Job, lasts: seq<nat>, t: Timed)
    requires WellFormed(job) && TimedInvariant(job, lasts, t) && Enabled(t.s, Spawn)
    ensures TimedInvariant(job, lasts, Make(job, lasts, t, Do(Spawn)))
  {
    SpawnKeepsSchedule(job, lasts, t);
    StepKeepsInvariant(job, t.s, Spawn);
    var t' := Make(job, lasts, t, Do(Spawn));
    hide SemaphoreSchedule;
    hide Fanout.Invariant;
    if w: nat :| w < t.s.next && t.now <= t.started[w] + lasts[w] {
      assert t'.started[w] == t.started[w];
    }
  }

  lemma MoveKeepsInvariant(job: Job, lasts: seq<nat>, t: Timed, m: Move)
    requires WellFormed(job) && TimedInvariant(job, lasts, t) && Allowed(lasts, t, m)
    ensures TimedInvariant(job, lasts, Make(job, lasts, t, m))
  {
    match m
    case Tick => TickKeepsInvariant(job, lasts, t);
    case Do(step) =>
      if step.Spawn? {
        SpawnKeepsInvariant(job, lasts, t);
      } else {
        StepKeepsInvariant(job, t.s, step);
        OtherStepsKeepTime(job, lasts, t, step);
      }
  }

  lemma OtherStepsKeepTime(job: Job, lasts: seq<nat>, t: Timed, step: Fanout.Step)
    requires WellFormed(job) && Shape(job, t.s) && PutsOnTime(lasts, t)
    requires Allowed(lasts, t, Do(step)) && !step.Spawn?
    ensures
      var t' := Make(job, lasts, t, Do(step));
      PutsOnTime(lasts, t') && t'.s.next == t.s.next && t'.started == t.started && t'.now == t.now
  {}

  lemma AtStartInvariant(job: Job, lasts: seq<nat>)
    requires WellFormed(job) && |lasts| == |job.areas|
    ensures TimedInvariant(job, lasts, AtStart(job))
  {
    BeginInvariant(job);
  }

  lemma {:induction false} MovesKeepInvariant(job: Job, lasts: seq<nat>, t: Timed, moves: seq<Move>)
    requires WellFormed(job) && TimedInvariant(job, lasts, t) && Moves(job, lasts, t, moves)
    ensures TimedInvariant(job, lasts, Then(job, lasts, t, moves))
    decreases |moves|
  {
    if moves == [] {
    } else {
      MoveKeepsInvariant(job, lasts, t, moves[0]);
      MovesKeepInvariant(job, lasts, Make(job, lasts, t, moves[0]), moves[1..]);
    }
  }

  // ----- what the clock says -----

  /** When the fan-out has returned its starts are the semaphore schedule of its durations. */
  lemma FanOutFollowsSchedule(job: Job, lasts: seq<nat>, moves: seq<Move>)
    requires WellFormed(job) && |lasts| == |job.areas| && Moves(job, lasts, AtStart(job), moves)
    requires Then(job, lasts, AtStart(job), moves).s.launcher.Returned?
    ensures
      var t := Then(job, lasts, AtStart(job), moves);
      |t.started| == |lasts| && SemaphoreSchedule(t.started, lasts, PUBLISH_CONCURRENCY)
  {
    AtStartInvariant(job, lasts);
    MovesKeepInvariant(job, lasts, AtStart(job), moves);
    var t := Then(job, lasts, AtStart(job), moves);
    ReturnedAccountsForFailures(job, t.s);
    assert lasts[..t.s.next] == lasts;
  }

  lemma {:induction false} SumOfPrefix(lasts: seq<nat>, k: nat, n: nat)
    requires n <= k <= |lasts|
    ensures Sum(lasts[..k], n) == Sum(lasts, n)
  {
    if n == 0 {
    } else {
      SumOfPrefix(lasts, k, n - 1);
    }
  }

  lemma {:induction false} SumGrows(lasts: seq<nat>, i: nat, n: nat)
    requires i <= n <= |lasts|
    ensures Sum(lasts, i) <= Sum(lasts, n)
  {
    if i == n {
    } else {
      SumGrows(lasts, i, n - 1);
    }
  }

  /**
   No put starves, by the machine's own clock: in every timed run, at every moment, each area launched so far
   began within a quarter of the earlier durations, and the clock itself, until the fan-out returns and at its
   return, is within a quarter of the total and three quarters of the longest.
   */
  lemma ClockIsBounded(job: Job, lasts: seq<nat>, moves: seq<Move>, longest: nat)
    requires WellFormed(job) && |lasts| == |job.areas| && Moves(job, lasts, AtStart(job), moves)
    requires forall j :: 0 <= j < |lasts| ==> lasts[j] <= longest
    ensures
      var t := Then(job, lasts, AtStart(job), moves);
      && |t.started| <= |lasts| && 4 * t.now <= Sum(lasts, |lasts|) + 3 * longest
      && forall i: nat :: i < |t.started| ==> 4 * t.started[i] <= Sum(lasts, i)
  {
    AtStartInvariant(job, lasts);
    MovesKeepInvariant(job, lasts, AtStart(job), moves);
    var t := Then(job, lasts, AtStart(job), moves);
    var n := t.s.next;
    forall i: nat | i < n
      ensures 4 * t.started[i] <= Sum(lasts, i)
      ensures 4 * (t.started[i] + lasts[i]) <= Sum(lasts, |lasts|) + 3 * longest
    {
      FanOutDoesNotStarve(t.started, lasts[..n], longest, i);
      SumOfPrefix(lasts, n, i);
      SumOfPrefix(lasts, n, n);
      SumGrows(lasts, n, |lasts|);
    }
  }

  /** With every put held to two attempts of 3s and a 200ms pause, n areas are over within (n + 3) * 1.55s. */
  lemma FanOutIsOverInTime(job: Job, lasts: seq<nat>, moves: seq<Move>)
    requires WellFormed(job) && |lasts| == |job.areas| && Moves(job, lasts, AtStart(job), moves)
    requires forall j :: 0 <= j < |lasts| ==> lasts[j] <= MAX_PUT
    ensures Then(job, lasts, AtStart(job), moves).now <= (|lasts| + 3) * 1550 * MILLISECOND
  {
    ClockIsBounded(job, lasts, moves, MAX_PUT);
    SumAtMost(lasts, |lasts|, MAX_PUT);
  }

  lemma {:induction false} MovesAreCounted(job: Job, lasts: seq<nat>, t: Timed, moves: seq<Move>)
    requires WellFormed(job) && Fanout.Invariant(job, t.s) && Moves(job, lasts, t, moves) && StepsLeft(t.s) >= 0
    ensures
      var end := Then(job, lasts, t, moves);
      0 <= StepsLeft(end.s) && |moves| <= StepsLeft(t.s) - StepsLeft(end.s) + end.now - t.now
    decreases |moves|
  {
    if moves == [] {
    } else {
      match moves[0] {
        case Tick =>
        case Do(step) =>
          StepsShrink(job, t.s, step);
          StepKeepsInvariant(job, t.s, step);
      }
      MovesAreCounted(job, lasts, Make(job, lasts, t, moves[0]), moves[1..]);
    }
  }

  /** So every timed run ends: its length is bounded by the steps of the machine and the clock. */
  lemma TimedRunsEnd(job: Job, lasts: seq<nat>, moves: seq<Move>, longest: nat)
    requires WellFormed(job) && |lasts| == |job.areas| && Moves(job, lasts, AtStart(job), moves)
    requires forall j :: 0 <= j < |lasts| ==> lasts[j] <= longest
    ensures 4 * |moves| <= 4 * (7 * |lasts| + 1) + Sum(lasts, |lasts|) + 3 * longest
  {
    BeginInvariant(job);
    FreshWeight(|job.areas|);
    MovesAreCounted(job, lasts, AtStart(job), moves);
    ClockIsBounded(job, lasts, moves, longest);
  }

  /** Whatever the durations, a timed run that has not returned can go on. */
  lemma TimeNeverStops(job: Job, lasts: seq<nat>, t: Timed) returns (m: Move)
    requires WellFormed(job) && TimedInvariant(job, lasts, t) && !t.s.launcher.Returned?
    ensures Allowed(lasts, t, m)
  {
    if w: nat :| DueAt(lasts, t, w) {
      return Do(FinishPut(w));
    }
    if step :| Enabled(t.s, step) && !step.FinishPut? {
      return Do(step);
    }
    return Tick;
  }
}
