/** The poll loop's absolute-time schedule and its phase budgets (internal/poller/poller.go). */
module Schedule {
  import opened Common
  import opened Config

  // ----- phase budgets -----

  function DeriveCycleTimeout(interval: int): int {
    var derived := interval - CYCLE_SLACK;
    var capped := if derived > POLL_CYCLE_TIMEOUT then POLL_CYCLE_TIMEOUT else derived;
    if capped < CYCLE_FLOOR then CYCLE_FLOOR else capped
  }

  datatype Budgets = Budgets(fetchStore: int, publish: int)

  function SplitCycleBudget(cycleTimeout: int): Budgets {
    var maxPublish := cycleTimeout - PHASE_FLOOR;
    var wanted := if PUBLISH_PHASE_BUDGET > maxPublish then maxPublish else PUBLISH_PHASE_BUDGET;
    var publish := if wanted < PHASE_FLOOR then PHASE_FLOOR else wanted;
    var rest := cycleTimeout - publish;
    Budgets(if rest < PHASE_FLOOR then PHASE_FLOOR else rest, publish)
  }

  /**
   The two phases fit their cycle, and leave the slack inside the interval, exactly when the interval
   is at least seven seconds; below that they take two seconds whatever the cycle timeout.
   */
  lemma BudgetsFitExactly(interval: int)
    ensures
      var cycleTimeout := DeriveCycleTimeout(interval);
      var b := SplitCycleBudget(cycleTimeout);
      && cycleTimeout == (if interval >= 30 * SECOND then 25 * SECOND
                          else if interval >= 6 * SECOND then interval - 5 * SECOND
                          else SECOND)
      && b == (if interval >= 30 * SECOND then Budgets(10 * SECOND, 15 * SECOND)
               else if interval >= 21 * SECOND then Budgets(interval - 20 * SECOND, 15 * SECOND)
               else if interval >= 7 * SECOND then Budgets(SECOND, interval - 6 * SECOND)
               else Budgets(SECOND, SECOND))
      && CYCLE_FLOOR <= cycleTimeout <= POLL_CYCLE_TIMEOUT
      && (cycleTimeout == POLL_CYCLE_TIMEOUT <==> interval >= 30 * SECOND)
      && b.fetchStore >= PHASE_FLOOR && b.publish >= PHASE_FLOOR
      && (b.fetchStore + b.publish == cycleTimeout <==> interval >= 7 * SECOND)
      && (b.fetchStore + b.publish <= interval - CYCLE_SLACK <==> interval >= 7 * SECOND)
      && (interval < 7 * SECOND ==> b.fetchStore + b.publish == 2 * SECOND)
      && (b.publish == PUBLISH_PHASE_BUDGET <==> interval >= 21 * SECOND)
  {}

  // ----- the loop -----

  /** `at` is the clock reading that found the slot past, or at which its poll began. */
  datatype Event = Missed(slot: nat, at: Time) | Fired(slot: nat, at: Time)

  /** One turn of the loop: how long each skipped slot takes to log, how late the timer is, how long the poll runs. */
  datatype Turn = Turn(logCost: nat, late: nat, busy: nat)

  datatype Loop = Loop(cycle: nat, now: Time, log: seq<Event>)

  function SlotTime(start: Time, interval: int, slot: nat): Time {
    start + slot * interval
  }

  lemma NextSlot(start: Time, interval: int, slot: nat)
    ensures SlotTime(start, interval, slot + 1) == SlotTime(start, interval, slot) + interval
  {}

  /** The skip loop: past slots are logged, one reading of the clock each. */
  function SkipMissed(start: Time, interval: int, s: Loop, logCost: nat): (r: Loop)
    requires interval > logCost
    decreases if s.now > SlotTime(start, interval, s.cycle) then s.now - SlotTime(start, interval, s.cycle) else 0
  {
    if s.now > SlotTime(start, interval, s.cycle) then
      NextSlot(start, interval, s.cycle);
      SkipMissed(start, interval, Loop(s.cycle + 1, s.now + logCost, s.log + [Missed(s.cycle, s.now)]), logCost)
    else s
  }

  function TakeTurn(start: Time, interval: int, s: Loop, turn: Turn): Loop
    requires interval > turn.logCost
  {
    var ready := SkipMissed(start, interval, s, turn.logCost);
    var at := SlotTime(start, interval, ready.cycle) + turn.late;
    Loop(ready.cycle + 1, at + turn.busy, ready.log + [Fired(ready.cycle, at)])
  }

  function RunTurns(start: Time, interval: int, turns: seq<Turn>): Loop
    requires forall i :: 0 <= i < |turns| ==> interval > turns[i].logCost
  {
    if turns == [] then Loop(1, start, [])
    else TakeTurn(start, interval, RunTurns(start, interval, turns[..|turns| - 1]), turns[|turns| - 1])
  }

  /** `Run` from the end of its immediate first poll, for as many turns as happen before shutdown. */
  method Run(start: Time, interval: int, turns: seq<Turn>) returns (cycle: nat, log: seq<Event>)
    requires interval > 0 && forall i :: 0 <= i < |turns| ==> interval > turns[i].logCost
    ensures cycle == RunTurns(start, interval, turns).cycle && log == RunTurns(start, interval, turns).log
  {
    var now := start;
    cycle, log := 1, [];
    for i := 0 to |turns|
      invariant Loop(cycle, now, log) == RunTurns(start, interval, turns[..i])
    {
      assert turns[..i + 1][..i] == turns[..i];
      ghost var before := Loop(cycle, now, log);
      var turn := turns[i];
      var nextAt := start + cycle * interval;
      while now > nextAt
        invariant nextAt == SlotTime(start, interval, cycle)
        invariant SkipMissed(start, interval, Loop(cycle, now, log), turn.logCost)
               == SkipMissed(start, interval, before, turn.logCost)
        decreases if now > nextAt then now - nextAt else 0
      {
        NextSlot(start, interval, cycle);
        log := log + [Missed(cycle, now)];
        cycle := cycle + 1;
        now := now + turn.logCost;
        nextAt := start + cycle * interval;
      }
      now := nextAt + turn.late;
      log := log + [Fired(cycle, now)];
      now := now + turn.busy;
      cycle := cycle + 1;
    }
    assert turns[..|turns|] == turns;
  }

  // ----- no drift, no burst -----

  /**
   The k-th event is about slot k + 1: every slot is fired or logged missed exactly once, in order.
   A slot is missed only when it is past, and fired never before its time.
   */
  predicate WellTimed(start: Time, interval: int, log: seq<Event>) {
    forall k :: 0 <= k < |log| ==>
      && log[k].slot == k + 1
      && (if log[k].Missed? then log[k].at > SlotTime(start, interval, k + 1)
          else log[k].at >= SlotTime(start, interval, k + 1))
  }

  predicate LoopInvariant(start: Time, interval: int, s: Loop) {
    WellTimed(start, interval, s.log) && s.cycle == |s.log| + 1
  }

  /** The skip loop stops at the first slot that is not past. */
  lemma {:induction false} SkipStopsAtFirstFuture(start: Time, interval: int, s: Loop, logCost: nat)
    requires interval > logCost && LoopInvariant(start, interval, s)
    ensures
      var r := SkipMissed(start, interval, s, logCost);
      && LoopInvariant(start, interval, r)
      && r.cycle >= s.cycle && s.log <= r.log
      && r.now <= SlotTime(start, interval, r.cycle)
      && (forall k :: |s.log| <= k < |r.log| ==> r.log[k].Missed?)
      && (logCost == 0 ==> r.now == s.now)
    decreases if s.now > SlotTime(start, interval, s.cycle) then s.now - SlotTime(start, interval, s.cycle) else 0
  {
    if s.now <= SlotTime(start, interval, s.cycle) {
    } else {
      NextSlot(start, interval, s.cycle);
      var next := Loop(s.cycle + 1, s.now + logCost, s.log + [Missed(s.cycle, s.now)]);
      SkipStopsAtFirstFuture(start, interval, next, logCost);
    }
  }

  lemma {:induction false} NeverDriftsOrBursts(start: Time, interval: int, turns: seq<Turn>)
    requires interval > 0 && forall i :: 0 <= i < |turns| ==> interval > turns[i].logCost
    ensures LoopInvariant(start, interval, RunTurns(start, interval, turns))
  {
    if turns == [] {
    } else {
      var init, last := turns[..|turns| - 1], turns[|turns| - 1];
      NeverDriftsOrBursts(start, interval, init);
      var s := RunTurns(start, interval, init);
      SkipStopsAtFirstFuture(start, interval, s, last.logCost);
      var ready := SkipMissed(start, interval, s, last.logCost);
      hide SkipMissed;
      hide RunTurns;
      FireKeepsTime(start, interval, ready, last.late);
    }
  }

  /** The entries of `m` skipped slots: one reading of the clock each, `logCost` apart. */
  predicate SkippedInTurn(s: Loop, m: nat, logCost: nat, log: seq<Event>) {
    && |log| == |s.log| + m && log[..|s.log|] == s.log
    && forall k: nat :: k < m ==> log[|s.log| + k] == Missed(s.cycle + k, s.now + k * logCost)
  }

  /**
   One turn, by the clock alone: slots are skipped while the clock has passed them, the poll begins at the first
   slot that is not past plus the lateness of the timer, and the next turn begins when it ends.
   */
  lemma TurnExactly(start: Time, interval: int, s: Loop, turn: Turn) returns (m: nat)
    requires interval > turn.logCost
    ensures
      var r, slot := TakeTurn(start, interval, s, turn), s.cycle + m;
      && s.now + m * turn.logCost <= start + slot * interval
      && (forall k: nat :: k < m ==> s.now + k * turn.logCost > start + (s.cycle + k) * interval)
      && r.cycle == slot + 1 && r.now == start + slot * interval + turn.late + turn.busy
      && |r.log| > 0 && r.log[|r.log| - 1] == Fired(slot, start + slot * interval + turn.late)
      && SkippedInTurn(s, m, turn.logCost, r.log[..|r.log| - 1])
  {
    m := SkipExactly(start, interval, s, turn.logCost);
  }

  lemma {:induction false} SkipExactly(start: Time, interval: int, s: Loop, logCost: nat) returns (m: nat)
    requires interval > logCost
    ensures
      var r := SkipMissed(start, interval, s, logCost);
      && r.cycle == s.cycle + m && r.now == s.now + m * logCost
      && r.now <= SlotTime(start, interval, r.cycle)
      && (forall k: nat :: k < m ==> s.now + k * logCost > SlotTime(start, interval, s.cycle + k))
      && SkippedInTurn(s, m, logCost, r.log)
    decreases if s.now > SlotTime(start, interval, s.cycle) then s.now - SlotTime(start, interval, s.cycle) else 0
  {
    if s.now <= SlotTime(start, interval, s.cycle) {
      m := 0;
    } else {
      NextSlot(start, interval, s.cycle);
      var next := Loop(s.cycle + 1, s.now + logCost, s.log + [Missed(s.cycle, s.now)]);
      var rest := SkipExactly(start, interval, next, logCost);
      m := rest + 1;
      SkipOneMore(start, interval, s, logCost, rest);
    }
  }

  lemma SkipOneMore(start: Time, interval: int, s: Loop, logCost: nat, rest: nat)
    requires interval > logCost && s.now > SlotTime(start, interval, s.cycle)
    requires
      var next := Loop(s.cycle + 1, s.now + logCost, s.log + [Missed(s.cycle, s.now)]);
      var r := SkipMissed(start, interval, next, logCost);
      && r.now == next.now + rest * logCost && SkippedInTurn(next, rest, logCost, r.log)
      && (forall k: nat :: k < rest ==> next.now + k * logCost > SlotTime(start, interval, next.cycle + k))
    ensures
      var r := SkipMissed(start, interval, s, logCost);
      && r.now == s.now + (rest + 1) * logCost && SkippedInTurn(s, rest + 1, logCost, r.log)
      && (forall k: nat :: k < rest + 1 ==> s.now + k * logCost > SlotTime(start, interval, s.cycle + k))
  {
    var next := Loop(s.cycle + 1, s.now + logCost, s.log + [Missed(s.cycle, s.now)]);
    var log := SkipMissed(start, interval, next, logCost).log;
    assert SkipMissed(start, interval, s, logCost) == SkipMissed(start, interval, next, logCost);
    hide SkipMissed;
    assert log[..|s.log|] == log[..|next.log|][..|s.log|] == s.log;
    assert log[|s.log|] == log[..|next.log|][|s.log|];
    forall k: nat | k < rest + 1
      ensures log[|s.log| + k] == Missed(s.cycle + k, s.now + k * logCost)
      ensures s.now + k * logCost > SlotTime(start, interval, s.cycle + k)
    {
      if k > 0 {
        assert log[|next.log| + (k - 1)] == Missed(next.cycle + (k - 1), next.now + (k - 1) * logCost);
        assert next.now + (k - 1) * logCost > SlotTime(start, interval, next.cycle + (k - 1));
        assert (k - 1) * logCost == k * logCost - logCost;
      }
    }
    assert (rest + 1) * logCost == rest * logCost + logCost;
  }

  lemma FireKeepsTime(start: Time, interval: int, s: Loop, late: nat)
    requires LoopInvariant(start, interval, s)
    ensures WellTimed(start, interval, s.log + [Fired(s.cycle, SlotTime(start, interval, s.cycle) + late)])
  {}

  /** Every turn fires one slot: nothing is fired twice to catch up. */
  lemma {:induction false} OneFiringPerTurn(start: Time, interval: int, turns: seq<Turn>)
    requires interval > 0 && forall i :: 0 <= i < |turns| ==> interval > turns[i].logCost
    ensures |Begun(RunTurns(start, interval, turns).log)| == |turns|
  {
    if turns == [] {
    } else {
      var init, last := turns[..|turns| - 1], turns[|turns| - 1];
      OneFiringPerTurn(start, interval, init);
      NeverDriftsOrBursts(start, interval, init);
      var s := RunTurns(start, interval, init);
      SkipStopsAtFirstFuture(start, interval, s, last.logCost);
      var ready := SkipMissed(start, interval, s, last.logCost);
      SkippedAreNotBegun(s.log, ready.log);
      BegunOneMore(ready.log, Fired(ready.cycle, SlotTime(start, interval, ready.cycle) + last.late));
    }
  }

  /** The events whose poll began. */
  function Begun(log: seq<Event>): seq<Event> {
    if log == [] then []
    else
      var rest := Begun(log[..|log| - 1]);
      if log[|log| - 1].Fired? then rest + [log[|log| - 1]] else rest
  }

  lemma BegunOneMore(log: seq<Event>, e: Event)
    ensures Begun(log + [e]) == if e.Fired? then Begun(log) + [e] else Begun(log)
  {
    assert (log + [e])[..|log|] == log;
  }

  lemma {:induction false} SkippedAreNotBegun(before: seq<Event>, after: seq<Event>)
    requires before <= after && forall k :: |before| <= k < |after| ==> after[k].Missed?
    ensures Begun(after) == Begun(before)
    decreases |after|
  {
    if |after| > |before| {
      SkippedAreNotBegun(before, after[..|after| - 1]);
    } else {
      assert before == after;
    }
  }

  /** The events of polls begun by time t. */
  function BegunBy(log: seq<Event>, t: Time): set<nat> {
    set k: nat | k < |log| && log[k].Fired? && log[k].at <= t
  }

  function UpTo(q: nat): (r: set<nat>)
    ensures |r| == q && forall k: nat :: k in r <==> k < q
  {
    if q == 0 then {} else UpTo(q - 1) + {q - 1}
  }

  lemma {:induction false} SubsetIsSmaller(a: set<nat>, b: set<nat>)
    requires a <= b
    ensures |a| <= |b|
  {
    assert b == a + (b - a);
  }

  /** Load never amplifies: by any time t at most (t - start) / interval scheduled polls have begun. */
  lemma LoadIsBounded(start: Time, interval: int, turns: seq<Turn>, t: Time)
    requires interval > 0 && t >= start && forall i :: 0 <= i < |turns| ==> interval > turns[i].logCost
    ensures |BegunBy(RunTurns(start, interval, turns).log, t)| <= (t - start) / interval
  {
    var log, q := RunTurns(start, interval, turns).log, (t - start) / interval;
    NeverDriftsOrBursts(start, interval, turns);
    hide RunTurns;
    forall k | k in BegunBy(log, t) ensures k in UpTo(q) {
      SlotsBefore(interval, k + 1, t - start);
    }
    SubsetIsSmaller(BegunBy(log, t), UpTo(q));
  }

  lemma SlotsBefore(interval: int, slot: nat, elapsed: int)
    requires interval > 0 && slot * interval <= elapsed
    ensures slot <= elapsed / interval
  {
    var q := elapsed / interval;
    assert slot * interval < (q + 1) * interval;
    CancelFactor(slot, q + 1, interval);
  }

  lemma CancelFactor(a: int, b: int, c: int)
    requires c > 0 && a * c < b * c
    ensures a < b
  {
    assert (b - a) * c > 0;
  }

  // ----- no tick is missed by construction -----

  /** A turn whose poll keeps both phase deadlines. */
  datatype Work = Work(late: nat, fetchStore: nat, publish: nat, overhead: nat)

  function TurnOf(w: Work): Turn {
    Turn(0, w.late, w.fetchStore + w.publish + w.overhead)
  }

  predicate KeepsDeadlines(interval: int, w: Work) {
    var b := SplitCycleBudget(DeriveCycleTimeout(interval));
    w.fetchStore <= b.fetchStore && w.publish <= b.publish && w.late + w.overhead <= CYCLE_SLACK
  }

  /** When every turn ends inside its interval, every slot fires. */
  lemma {:induction false} ShortTurnsMissNothing(start: Time, interval: int, turns: seq<Turn>)
    requires interval > 0
    requires forall i :: 0 <= i < |turns| ==> interval > turns[i].logCost && turns[i].late + turns[i].busy <= interval
    ensures
      var s := RunTurns(start, interval, turns);
      && |s.log| == |turns| && s.cycle == |turns| + 1
      && (forall k :: 0 <= k < |s.log| ==> s.log[k].Fired?)
      && s.now <= SlotTime(start, interval, s.cycle)
  {
    if turns == [] {
    } else {
      ShortTurnsMissNothing(start, interval, turns[..|turns| - 1]);
      NextSlot(start, interval, |turns|);
    }
  }

  function TurnsOf(work: seq<Work>): seq<Turn> {
    seq(|work|, i requires 0 <= i < |work| => TurnOf(work[i]))
  }

  /**
   With an interval of at least seven seconds, polls that keep their phase deadlines, and wake-up
   lateness plus overhead within the slack, the skip loop never runs.
   */
  lemma NoTickIsMissed(start: Time, interval: int, work: seq<Work>)
    requires interval >= 7 * SECOND
    requires forall i :: 0 <= i < |work| ==> KeepsDeadlines(interval, work[i])
    ensures
      var log := RunTurns(start, interval, TurnsOf(work)).log;
      && |log| == |work|
      && forall k :: 0 <= k < |log| ==> log[k].Fired? && log[k].slot == k + 1
  {
    BudgetsFitExactly(interval);
    ShortTurnsMissNothing(start, interval, TurnsOf(work));
    NeverDriftsOrBursts(start, interval, TurnsOf(work));
  }

  /** Below seven seconds a poll that keeps its deadlines can still make the loop skip a slot. */
  lemma ShortIntervalMissesATick(start: Time, interval: int)
    requires 0 < interval < 7 * SECOND
    ensures
      var w := Work(0, SECOND, SECOND, CYCLE_SLACK);
      var log := RunTurns(start, interval, TurnsOf([w, w])).log;
      KeepsDeadlines(interval, w) && |log| > 1 && log[1].Missed?
  {
    BudgetsFitExactly(interval);
    var w := Work(0, SECOND, SECOND, CYCLE_SLACK);
    var turns := TurnsOf([w, w]);
    var s0 := Loop(1, start, []);
    assert SkipMissed(start, interval, s0, 0) == s0;
    var one := Loop(2, start + interval + 7 * SECOND, [Fired(1, start + interval)]);
    assert TakeTurn(start, interval, s0, TurnOf(w)) == one;
    assert turns[..1][..0] == [] && turns[..1] == [TurnOf(w)];
    assert RunTurns(start, interval, turns[..1]) == one;
    NextSlot(start, interval, 1);
    var skipped := SkipMissed(start, interval, Loop(3, one.now, one.log + [Missed(2, one.now)]), 0);
    assert SkipMissed(start, interval, one, 0) == skipped;
    SkipStopsAtFirstFuture(start, interval, one, 0);
    SkipKeepsLog(start, interval, Loop(3, one.now, one.log + [Missed(2, one.now)]), 0);
  }

  lemma {:induction false} SkipKeepsLog(start: Time, interval: int, s: Loop, logCost: nat)
    requires interval > logCost
    ensures s.log <= SkipMissed(start, interval, s, logCost).log
    decreases if s.now > SlotTime(start, interval, s.cycle) then s.now - SlotTime(start, interval, s.cycle) else 0
  {
    if s.now <= SlotTime(start, interval, s.cycle) {
    } else {
      NextSlot(start, interval, s.cycle);
      SkipKeepsLog(start, interval, Loop(s.cycle + 1, s.now + logCost, s.log + [Missed(s.cycle, s.now)]), logCost);
    }
  }
}
