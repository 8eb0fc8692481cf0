/**
 The per-state publish fan-out as interleaved goroutines: one launcher, one worker per area, a
 semaphore of four slots and a wait group (internal/poller/poller.go, publishPerStateSnapshots).
 */
module Fanout {
  import opened Common
  import opened Config
  import opened Health

  /** How a put ends. */
  datatype PutResult = Succeeded | GaveUp | PutPanicked

  /** A worker's place; the deferred calls run in the order record, release, done. */
  datatype Phase =
    | NotLaunched
    | Putting      // the put is in flight
    | Recording    // it failed or panicked and its failure is not yet counted
    | Releasing    // its slot is not yet given back
    | Signalling   // the wait group is not yet told
    | Gone

  /** The launcher's place in the loop over the areas. */
  datatype Launcher = Adding | Acquiring | Spawning | Waiting | Returned

  datatype State = State(
    launcher: Launcher,
    next: nat,
    slots: nat,
    waitGroup: nat,
    workers: seq<Phase>,
    failures: map<string, nat>)

  datatype Step =
    | Add | Acquire | Spawn | Wait
    | FinishPut(w: nat) | Record(w: nat) | Release(w: nat) | Done(w: nat)

  /** One fan-out: the areas and how each area's put will end. */
  datatype Job = Job(areas: seq<string>, results: seq<PutResult>)

  predicate WellFormed(job: Job) {
    |job.areas| == |job.results|
  }

  function Begin(job: Job): State {
    State(if job.areas == [] then Waiting else Adding, 0, 0, 0,
          seq(|job.areas|, _ => NotLaunched), map[])
  }

  predicate At(s: State, w: nat, phase: Phase) {
    w < |s.workers| && s.workers[w] == phase
  }

  predicate Enabled(s: State, step: Step) {
    match step
    case Add => s.launcher.Adding?
    case Acquire => s.launcher.Acquiring? && s.slots < PUBLISH_CONCURRENCY
    case Spawn => s.launcher.Spawning? && At(s, s.next, NotLaunched)
    case Wait => s.launcher.Waiting? && s.waitGroup == 0
    case FinishPut(w) => At(s, w, Putting)
    case Record(w) => At(s, w, Recording)
    case Release(w) => At(s, w, Releasing) && s.slots > 0
    case Done(w) => At(s, w, Signalling) && s.waitGroup > 0
  }

  function Apply(job: Job, s: State, step: Step): State
    requires WellFormed(job) && |s.workers| == |job.areas| && Enabled(s, step)
  {
    match step
    case Add => s.(launcher := Acquiring, waitGroup := s.waitGroup + 1)
    case Acquire => s.(launcher := Spawning, slots := s.slots + 1)
    case Spawn =>
      s.(launcher := if s.next + 1 < |s.workers| then Adding else Waiting,
         next := s.next + 1,
         workers := s.workers[s.next := Putting])
    case Wait => s.(launcher := Returned)
    case FinishPut(w) =>
      s.(workers := s.workers[w := if job.results[w].Succeeded? then Releasing else Recording])
    case Record(w) =>
      s.(workers := s.workers[w := Releasing], failures := Bump(s.failures, job.areas[w]))
    case Release(w) => s.(workers := s.workers[w := Signalling], slots := s.slots - 1)
    case Done(w) => s.(workers := s.workers[w := Gone], waitGroup := s.waitGroup - 1)
  }

  predicate Runs(job: Job, s: State, steps: seq<Step>)
    requires WellFormed(job) && |s.workers| == |job.areas|
    decreases |steps|
  {
    steps == [] || (Enabled(s, steps[0]) && Runs(job, Apply(job, s, steps[0]), steps[1..]))
  }

  function After(job: Job, s: State, steps: seq<Step>): (r: State)
    requires WellFormed(job) && |s.workers| == |job.areas| && Runs(job, s, steps)
    ensures |r.workers| == |job.areas|
    decreases |steps|
  {
    if steps == [] then s else After(job, Apply(job, s, steps[0]), steps[1..])
  }

  // ----- counting workers -----

  function Weight(s: seq<Phase>, f: Phase -> int): int {
    if s == [] then 0 else f(s[0]) + Weight(s[1..], f)
  }

  lemma {:induction false} WeightUpdate(s: seq<Phase>, w: nat, p: Phase, f: Phase -> int)
    requires w < |s|
    ensures Weight(s[w := p], f) == Weight(s, f) - f(s[w]) + f(p)
  {
    if w == 0 {
      assert s[0 := p][1..] == s[1..];
    } else {
      assert s[w := p][1..] == s[1..][w - 1 := p];
      WeightUpdate(s[1..], w - 1, p, f);
    }
  }

  lemma {:induction false} WeightPositive(s: seq<Phase>, f: Phase -> int)
    requires forall p :: f(p) >= 0
    ensures Weight(s, f) >= 0
    ensures forall w :: 0 <= w < |s| ==> Weight(s, f) >= f(s[w])
    ensures (forall w :: 0 <= w < |s| ==> f(s[w]) == 0) ==> Weight(s, f) == 0
  {
    if s == [] {
    } else {
      WeightPositive(s[1..], f);
      assert forall w :: 1 <= w < |s| ==> s[w] == s[1..][w - 1];
    }
  }

  /** Workers that hold a slot, that the wait group counts, and that have a put in flight. */
  function HoldsSlot(p: Phase): int {
    if p.Putting? || p.Recording? || p.Releasing? then 1 else 0
  }

  function Counted(p: Phase): int {
    if p.NotLaunched? || p.Gone? then 0 else 1
  }

  function InFlight(p: Phase): int {
    if p.Putting? then 1 else 0
  }

  /** The failures recorded so far for one area. */
  function Recorded(job: Job, workers: seq<Phase>, area: string): nat
    requires WellFormed(job) && |workers| <= |job.areas|
  {
    if workers == [] then 0
    else
      var n := |workers| - 1;
      Recorded(job, workers[..n], area)
      + if job.areas[n] == area && !job.results[n].Succeeded?
           && (workers[n].Releasing? || workers[n].Signalling? || workers[n].Gone?)
        then 1 else 0
  }

  lemma {:induction false} RecordedUpdate(job: Job, workers: seq<Phase>, w: nat, p: Phase, area: string)
    requires WellFormed(job) && w < |workers| <= |job.areas|
    ensures Recorded(job, workers[w := p], area)
         == Recorded(job, workers, area)
            - Recorded1(job, workers[w], w, area) + Recorded1(job, p, w, area)
  {
    var n := |workers| - 1;
    if w == n {
      assert workers[w := p][..n] == workers[..n];
    } else {
      assert workers[w := p][..n] == workers[..n][w := p];
      RecordedUpdate(job, workers[..n], w, p, area);
    }
  }

  function Recorded1(job: Job, p: Phase, w: nat, area: string): nat
    requires WellFormed(job) && w < |job.areas|
  {
    if job.areas[w] == area && !job.results[w].Succeeded? && (p.Releasing? || p.Signalling? || p.Gone?) then 1 else 0
  }

  // ----- the invariant -----

  /** Workers are launched in order, and the launcher's place says how far it has come. */
  predicate Shape(job: Job, s: State)
    requires WellFormed(job)
  {
    && |s.workers| == |job.areas| && s.next <= |s.workers|
    && (s.launcher.Adding? || s.launcher.Acquiring? || s.launcher.Spawning? <==> s.next < |s.workers|)
    && (forall w :: 0 <= w < |s.workers| ==> (s.workers[w].NotLaunched? <==> w >= s.next))
    && (forall w :: 0 <= w < |s.workers| && s.workers[w].Recording? ==> !job.results[w].Succeeded?)
  }

  /** The semaphore and the wait group count the workers and the launcher's own hold. */
  predicate Counts(s: State) {
    && s.slots == Weight(s.workers, HoldsSlot) + (if s.launcher.Spawning? then 1 else 0)
    && s.slots <= PUBLISH_CONCURRENCY
    && s.waitGroup == Weight(s.workers, Counted) + (if s.launcher.Acquiring? || s.launcher.Spawning? then 1 else 0)
    && (s.launcher.Returned? ==> s.waitGroup == 0)
  }

  ghost predicate FailuresCounted(job: Job, s: State)
    requires WellFormed(job) && |s.workers| <= |job.areas|
  {
    forall area :: CountOf(s.failures, area) == Recorded(job, s.workers, area)
  }

  ghost predicate Invariant(job: Job, s: State)
    requires WellFormed(job)
  {
    Shape(job, s) && Counts(s) && FailuresCounted(job, s)
  }

  lemma {:induction false} NothingRecorded(job: Job, n: nat, area: string)
    requires WellFormed(job) && n <= |job.areas|
    ensures Recorded(job, seq(n, _ => NotLaunched), area) == 0
  {
    if n == 0 {
    } else {
      assert seq(n, _ => NotLaunched)[..n - 1] == seq(n - 1, _ => NotLaunched);
      NothingRecorded(job, n - 1, area);
    }
  }

  lemma BeginInvariant(job: Job)
    requires WellFormed(job)
    ensures Invariant(job, Begin(job))
  {
    WeightPositive(Begin(job).workers, HoldsSlot);
    WeightPositive(Begin(job).workers, Counted);
    forall area ensures CountOf(Begin(job).failures, area) == Recorded(job, Begin(job).workers, area) {
      NothingRecorded(job, |job.areas|, area);
    }
  }

  lemma StepKeepsShape(job: Job, s: State, step: Step)
    requires WellFormed(job) && Shape(job, s) && Enabled(s, step)
    ensures Shape(job, Apply(job, s, step))
  {
    hide Bump;
  }

  /** The worker a step moves, if it moves one. */
  function Moved(s: State, step: Step): int {
    match step
    case Add => -1
    case Acquire => -1
    case Wait => -1
    case Spawn => s.next
    case FinishPut(w) => w
    case Record(w) => w
    case Release(w) => w
    case Done(w) => w
  }

  /** What a step does to a sum over the workers. */
  lemma StepWeight(job: Job, s: State, step: Step, f: Phase -> int)
    requires WellFormed(job) && Shape(job, s) && Enabled(s, step)
    ensures
      var s', w := Apply(job, s, step), Moved(s, step);
      Weight(s'.workers, f) == Weight(s.workers, f) + (if w < 0 then 0 else f(s'.workers[w]) - f(s.workers[w]))
  {
    var s', w := Apply(job, s, step), Moved(s, step);
    if w >= 0 {
      assert s'.workers == s.workers[w := s'.workers[w]];
      WeightUpdate(s.workers, w, s'.workers[w], f);
    }
  }

  lemma StepKeepsCounts(job: Job, s: State, step: Step)
    requires WellFormed(job) && Shape(job, s) && Counts(s) && Enabled(s, step)
    ensures Counts(Apply(job, s, step))
  {
    StepWeight(job, s, step, HoldsSlot);
    StepWeight(job, s, step, Counted);
  }

  lemma StepKeepsFailures(job: Job, s: State, step: Step)
    requires WellFormed(job) && Shape(job, s) && FailuresCounted(job, s) && Enabled(s, step)
    ensures FailuresCounted(job, Apply(job, s, step))
  {
    var s', w := Apply(job, s, step), Moved(s, step);
    if w >= 0 {
      assert s'.workers == s.workers[w := s'.workers[w]];
      forall area ensures CountOf(s'.failures, area) == Recorded(job, s'.workers, area) {
        RecordedUpdate(job, s.workers, w, s'.workers[w], area);
        assert CountOf(s.failures, area) == Recorded(job, s.workers, area);
        hide Recorded;
      }
    }
  }

  lemma StepKeepsInvariant(job: Job, s: State, step: Step)
    requires WellFormed(job) && Invariant(job, s) && Enabled(s, step)
    ensures Invariant(job, Apply(job, s, step))
  {
    StepKeepsShape(job, s, step);
    StepKeepsCounts(job, s, step);
    StepKeepsFailures(job, s, step);
  }

  lemma {:induction false} RunKeepsInvariant(job: Job, s: State, steps: seq<Step>)
    requires WellFormed(job) && Invariant(job, s) && Runs(job, s, steps)
    ensures Invariant(job, After(job, s, steps))
    decreases |steps|
  {
    if steps == [] {
    } else {
      StepKeepsInvariant(job, s, steps[0]);
      RunKeepsInvariant(job, Apply(job, s, steps[0]), steps[1..]);
    }
  }

  /** At most four puts are in flight in every state of every interleaving, and the slots account for them. */
  lemma AtMostFourInFlight(job: Job, steps: seq<Step>)
    requires WellFormed(job) && Runs(job, Begin(job), steps)
    ensures
      var s := After(job, Begin(job), steps);
      0 <= Weight(s.workers, InFlight) <= s.slots <= PUBLISH_CONCURRENCY
  {
    BeginInvariant(job);
    RunKeepsInvariant(job, Begin(job), steps);
    var s := After(job, Begin(job), steps);
    WeightPositive(s.workers, InFlight);
    WeightLess(s.workers);
  }

  lemma {:induction false} WeightLess(s: seq<Phase>)
    ensures Weight(s, InFlight) <= Weight(s, HoldsSlot)
  {
    if s == [] {
    } else {
      WeightLess(s[1..]);
    }
  }

  // ----- no interleaving gets stuck, and every one ends -----

  /** In a state that has not returned some step can be taken. */
  lemma NeverStuck(job: Job, s: State) returns (step: Step)
    requires WellFormed(job) && Invariant(job, s) && !s.launcher.Returned?
    ensures Enabled(s, step)
  {
    WeightPositive(s.workers, HoldsSlot);
    WeightPositive(s.workers, Counted);
    if w: nat :| w < |s.workers| && !s.workers[w].NotLaunched? && !s.workers[w].Gone? {
      assert Weight(s.workers, Counted) >= Counted(s.workers[w]);
      assert Weight(s.workers, HoldsSlot) >= HoldsSlot(s.workers[w]);
      match s.workers[w]
      case Putting => return FinishPut(w);
      case Recording => return Record(w);
      case Releasing => return Release(w);
      case Signalling => return Done(w);
    }
    match s.launcher
    case Adding => return Add;
    case Acquiring => return Acquire;
    case Spawning => return Spawn;
    case Waiting => return Wait;
  }

  /** Steps a worker still has ahead of it. */
  function WorkerSteps(p: Phase): int {
    match p
    case NotLaunched => 7
    case Putting => 4
    case Recording => 3
    case Releasing => 2
    case Signalling => 1
    case Gone => 0
  }

  /** Bounds the steps left; the three launcher steps of an area are counted with its worker. */
  function StepsLeft(s: State): int {
    Weight(s.workers, WorkerSteps) + (if s.launcher.Returned? then 0 else 1)
    - (match s.launcher case Acquiring => 1 case Spawning => 2 case _ => 0)
  }

  lemma StepsShrink(job: Job, s: State, step: Step)
    requires WellFormed(job) && Invariant(job, s) && Enabled(s, step)
    ensures 0 <= StepsLeft(Apply(job, s, step)) < StepsLeft(s)
  {
    var s' := Apply(job, s, step);
    StepKeepsShape(job, s, step);
    StepWeight(job, s, step, WorkerSteps);
    WeightPositive(s'.workers, WorkerSteps);
    if s'.launcher in {Acquiring, Spawning} {
      assert Weight(s'.workers, WorkerSteps) >= WorkerSteps(s'.workers[s'.next]);
    }
  }

  lemma {:induction false} RunShrinks(job: Job, s: State, steps: seq<Step>)
    requires WellFormed(job) && Invariant(job, s) && Runs(job, s, steps) && StepsLeft(s) >= 0
    ensures |steps| <= StepsLeft(s) - StepsLeft(After(job, s, steps))
    ensures StepsLeft(After(job, s, steps)) >= 0
    decreases |steps|
  {
    if steps == [] {
    } else {
      StepKeepsInvariant(job, s, steps[0]);
      StepsShrink(job, s, steps[0]);
      RunShrinks(job, Apply(job, s, steps[0]), steps[1..]);
    }
  }

  lemma {:induction false} FreshWeight(n: nat)
    ensures Weight(seq(n, _ => NotLaunched), WorkerSteps) == 7 * n
  {
    if n == 0 {
    } else {
      assert seq(n, _ => NotLaunched)[1..] == seq(n - 1, _ => NotLaunched);
      FreshWeight(n - 1);
    }
  }

  /**
   The wait ends: no schedule takes more than seven steps an area and one, and one that stops before the
   return was not stuck.
   */
  lemma EveryScheduleEnds(job: Job, steps: seq<Step>)
    requires WellFormed(job) && Runs(job, Begin(job), steps)
    ensures |steps| <= 7 * |job.areas| + 1
    ensures
      var s := After(job, Begin(job), steps);
      s.launcher.Returned? || exists step :: Enabled(s, step)
  {
    BeginInvariant(job);
    FreshWeight(|job.areas|);
    RunShrinks(job, Begin(job), steps);
    RunKeepsInvariant(job, Begin(job), steps);
    if !After(job, Begin(job), steps).launcher.Returned? {
      var step := NeverStuck(job, After(job, Begin(job), steps));
    }
  }

  // ----- what the fan-out leaves behind -----

  /** The number of the area's puts that failed or panicked. */
  function FailedPuts(job: Job, n: nat, area: string): nat
    requires WellFormed(job) && n <= |job.areas|
  {
    if n == 0 then 0
    else FailedPuts(job, n - 1, area) + if job.areas[n - 1] == area && !job.results[n - 1].Succeeded? then 1 else 0
  }

  /** An area that stands once in the list fails once when its put does. */
  lemma {:induction false} FailedOnce(job: Job, n: nat, i: nat)
    requires WellFormed(job) && n <= |job.areas| && i < |job.areas|
    requires forall j :: 0 <= j < |job.areas| && j != i ==> job.areas[j] != job.areas[i]
    ensures FailedPuts(job, n, job.areas[i]) == if i < n && !job.results[i].Succeeded? then 1 else 0
  {
    if n == 0 {
    } else {
      FailedOnce(job, n - 1, i);
    }
  }

  lemma {:induction false} AllRecorded(job: Job, workers: seq<Phase>, area: string)
    requires WellFormed(job) && |workers| <= |job.areas|
    requires forall w :: 0 <= w < |workers| ==> workers[w].Gone?
    ensures Recorded(job, workers, area) == FailedPuts(job, |workers|, area)
  {
    if workers == [] {
    } else {
      AllRecorded(job, workers[..|workers| - 1], area);
    }
  }

  /**
   When the fan-out has returned every area was launched exactly once and its goroutine has gone, every
   slot is back, and each state's counter is the number of its failed or panicked puts.
   */
  lemma ReturnedAccountsForFailures(job: Job, s: State)
    requires WellFormed(job) && Invariant(job, s) && s.launcher.Returned?
    ensures s.next == |job.areas| && s.slots == 0 && s.waitGroup == 0
    ensures forall w :: 0 <= w < |s.workers| ==> s.workers[w].Gone?
    ensures forall area :: CountOf(s.failures, area) == FailedPuts(job, |job.areas|, area)
  {
    WeightPositive(s.workers, Counted);
    forall w | 0 <= w < |s.workers| ensures s.workers[w].Gone? {
      assert Weight(s.workers, Counted) >= Counted(s.workers[w]);
    }
    WeightPositive(s.workers, HoldsSlot);
    forall area ensures CountOf(s.failures, area) == FailedPuts(job, |job.areas|, area) {
      AllRecorded(job, s.workers, area);
    }
  }

  /** The same for every interleaving: the counters do not depend on the schedule. */
  lemma FanOutAccountsForFailures(job: Job, steps: seq<Step>)
    requires WellFormed(job) && Runs(job, Begin(job), steps)
    requires After(job, Begin(job), steps).launcher.Returned?
    ensures
      var s := After(job, Begin(job), steps);
      && s.next == |job.areas| && s.slots == 0 && s.waitGroup == 0
      && (forall w :: 0 <= w < |s.workers| ==> s.workers[w].Gone?)
      && (forall area :: CountOf(s.failures, area) == FailedPuts(job, |job.areas|, area))
  {
    BeginInvariant(job);
    RunKeepsInvariant(job, Begin(job), steps);
    ReturnedAccountsForFailures(job, After(job, Begin(job), steps));
  }

  /** The launches of a schedule, in order. */
  function Launches(job: Job, s: State, steps: seq<Step>): seq<nat>
    requires WellFormed(job) && |s.workers| == |job.areas| && Runs(job, s, steps)
    decreases |steps|
  {
    if steps == [] then []
    else
      (if steps[0].Spawn? then [s.next] else []) + Launches(job, Apply(job, s, steps[0]), steps[1..])
  }

  /** Areas are launched in order, each exactly once. */
  lemma {:induction false} LaunchedOnceInOrder(job: Job, s: State, steps: seq<Step>)
    requires WellFormed(job) && |s.workers| == |job.areas| && Runs(job, s, steps)
    ensures
      var launched := Launches(job, s, steps);
      && |launched| == After(job, s, steps).next - s.next
      && forall k :: 0 <= k < |launched| ==> launched[k] == s.next + k
    decreases |steps|
  {
    if steps == [] {
    } else {
      LaunchedOnceInOrder(job, Apply(job, s, steps[0]), steps[1..]);
    }
  }

  /** A scheduler that always takes a step that can be taken. */
  ghost predicate Schedules(job: Job, scheduler: State -> Step)
    requires WellFormed(job)
  {
    forall s :: Invariant(job, s) && !s.launcher.Returned? ==> Enabled(s, scheduler(s))
  }

  /** The whole fan-out under any scheduler, counting into the shared registry. */
  method PublishPerStateSnapshots(job: Job, scheduler: State -> Step, registry: Registry)
    requires WellFormed(job) && Schedules(job, scheduler)
    modifies registry`publishFailures
    ensures forall area ::
      CountOf(registry.publishFailures, area)
      == CountOf(old(registry.publishFailures), area) + FailedPuts(job, |job.areas|, area)
  {
    var s := Begin(job);
    BeginInvariant(job);
    WeightPositive(s.workers, WorkerSteps);
    while !s.launcher.Returned?
      invariant Invariant(job, s)
      invariant forall area ::
        CountOf(registry.publishFailures, area)
        == CountOf(old(registry.publishFailures), area) + CountOf(s.failures, area)
      invariant StepsLeft(s) >= 0
      decreases StepsLeft(s)
    {
      var step := scheduler(s);
      StepsShrink(job, s, step);
      StepKeepsInvariant(job, s, step);
      if step.Record? {
        registry.RecordPublishPutFailure(job.areas[step.w]);
      }
      s := Apply(job, s, step);
    }
    ReturnedAccountsForFailures(job, s);
  }
}
