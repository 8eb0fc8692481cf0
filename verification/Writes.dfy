/** The verified write path as runs of the fleet. */
module FleetWrites {
  import opened Common
  import opened AlertTable
  import opened AlertStore
  import opened Fleet

  lemma {:induction false} RunsAppend(s: State, first: seq<Step>, second: seq<Step>)
    requires Runs(s, first) && Runs(After(s, first), second)
    ensures Runs(s, first + second) && After(s, first + second) == After(After(s, first), second)
    decreases |first|
  {
    if first == [] {
      assert first + second == second;
    } else {
      RunsAppend(Apply(s, first[0]), first[1..], second);
      assert (first + second)[1..] == first[1..] + second;
    }
  }

  lemma AddStep(s: State, steps: seq<Step>, step: Step)
    requires Runs(s, steps) && Enabled(After(s, steps), step)
    ensures Runs(s, steps + [step]) && After(s, steps + [step]) == Apply(After(s, steps), step)
  {
    OneStep(After(s, steps), step);
    RunsAppend(s, steps, [step]);
  }

  /** The node has fallen back and `k` of its rows are done. */
  function AfterRows(s: State, n: nat, alerts: seq<Alert>, receivedAt: Time, faults: RowFaults, k: nat): State
    requires k <= |alerts|
  {
    var p := RowByRow(s.table, alerts, receivedAt, s.now, faults, k);
    s.(table := p.table, landed := s.landed + Landed(p), nodes := s.nodes[n := Inserting(alerts[k..], p.succeeded)])
  }

  function Landed(p: Progress): set<Alert> {
    set a | a in p.succeeded
  }

  /** Only this node moves, and it takes in nothing but this batch. */
  predicate StepOf(n: nat, alerts: seq<Alert>, step: Step) {
    && (step.Transaction? || step.FallBack? || step.InsertRow? || step.DropRow? || step.StartRetire?
        || step.RetireGroup? || step.Stop?)
    && step.node == n && forall a :: a in Incoming(step) ==> a in alerts
  }

  ghost predicate StepsOf(n: nat, alerts: seq<Alert>, steps: seq<Step>) {
    forall i :: 0 <= i < |steps| ==> StepOf(n, alerts, steps[i])
  }

  /** Some run of this node on this batch leads from `s` to `end`. */
  ghost predicate Reaches(s: State, n: nat, alerts: seq<Alert>, end: State) {
    exists steps :: Runs(s, steps) && StepsOf(n, alerts, steps) && After(s, steps) == end
  }

  lemma ReachesItself(s: State, n: nat, alerts: seq<Alert>)
    ensures Reaches(s, n, alerts, s)
  {
    assert Runs(s, []) && After(s, []) == s;
  }

  lemma ReachesFurther(s: State, n: nat, alerts: seq<Alert>, end: State, step: Step)
    requires Reaches(s, n, alerts, end) && Enabled(end, step) && StepOf(n, alerts, step)
    ensures Reaches(s, n, alerts, Apply(end, step))
  {
    var steps :| Runs(s, steps) && StepsOf(n, alerts, steps) && After(s, steps) == end;
    AddStep(s, steps, step);
    hide Apply;
    hide Enabled;
    hide StepOf;
    assert StepsOf(n, alerts, steps + [step]);
  }

  lemma {:induction false} RowsAreReached(s: State, n: nat, alerts: seq<Alert>, receivedAt: Time,
                                          faults: RowFaults, k: nat)
    requires NodeAt(s, n).Idle? && k <= |alerts|
    ensures Reaches(s, n, alerts, AfterRows(s, n, alerts, receivedAt, faults, k))
  {
    hide Reaches;
    if k == 0 {
      ReachesItself(s, n, alerts);
      ReachesFurther(s, n, alerts, s, FallBack(n, alerts));
      assert alerts[0..] == alerts && s.landed + Landed(Progress(s.table, [], 0)) == s.landed;
      assert Apply(s, FallBack(n, alerts)) == AfterRows(s, n, alerts, receivedAt, faults, 0);
    } else {
      RowsAreReached(s, n, alerts, receivedAt, faults, k - 1);
      OneMoreRow(s, n, alerts, receivedAt, faults, k);
      var step := if OutcomeOf(alerts, faults, k - 1).Landed? then InsertRow(n, receivedAt) else DropRow(n);
      var before := AfterRows(s, n, alerts, receivedAt, faults, k - 1);
      assert StepOf(n, alerts, step);
      hide AfterRows;
      hide OutcomeOf;
      hide Enabled;
      hide Apply;
      hide StepOf;
      ReachesFurther(s, n, alerts, before, step);
    }
  }

  lemma OneMoreRow(s: State, n: nat, alerts: seq<Alert>, receivedAt: Time, faults: RowFaults, k: nat)
    requires 0 < k <= |alerts|
    ensures
      var step := if OutcomeOf(alerts, faults, k - 1).Landed? then InsertRow(n, receivedAt) else DropRow(n);
      var before := AfterRows(s, n, alerts, receivedAt, faults, k - 1);
      Enabled(before, step) && Apply(before, step) == AfterRows(s, n, alerts, receivedAt, faults, k)
  {
    assert alerts[k - 1..][1..] == alerts[k..];
  }

  /** The node is retiring, and the UPDATEs of these event types are done. */
  function AfterGroups(end: State, n: nat, groups: Groups, done: set<string>): State {
    end.(table := RetireRows(end.table, GroupedRows(end.table, groups, done), end.now),
         nodes := end.nodes[n := Retiring(groups - done)])
  }

  lemma {:induction false} GroupsAreReached(s: State, n: nat, alerts: seq<Alert>, end: State, groups: Groups,
                                            done: set<string>)
    requires Reaches(s, n, alerts, end) && n in end.nodes && end.nodes[n] == Retiring(groups) && done <= groups.Keys
    ensures Reaches(s, n, alerts, AfterGroups(end, n, groups, done))
    decreases done
  {
    hide Reaches;
    if done == {} {
      NoGroupsNoRows(end.table, groups, end.now);
      assert groups - {} == groups;
      assert AfterGroups(end, n, groups, {}) == end;
    } else {
      var e :| e in done;
      GroupsAreReached(s, n, alerts, end, groups, done - {e});
      OneMoreGroup(end, n, groups, done, e);
      var before := AfterGroups(end, n, groups, done - {e});
      hide AfterGroups;
      hide Enabled;
      hide Apply;
      ReachesFurther(s, n, alerts, before, RetireGroup(n, e));
    }
  }

  lemma OneMoreGroup(end: State, n: nat, groups: Groups, done: set<string>, e: string)
    requires done <= groups.Keys && e in done
    ensures
      var before := AfterGroups(end, n, groups, done - {e});
      && Enabled(before, RetireGroup(n, e))
      && Apply(before, RetireGroup(n, e)) == AfterGroups(end, n, groups, done)
  {
    RetireOneMoreGroup(end.table, groups, done - {e}, e, end.now);
    assert done - {e} + {e} == done && (groups - (done - {e})) - {e} == groups - done;
  }

  /** What the fleet sees once the call has returned and the node is idle again. */
  function AfterCall(s: State, n: nat, landed: seq<Alert>, after: Table): State {
    s.(table := after, landed := s.landed + (set a | a in landed), nodes := s.nodes[n := Idle])
  }

  lemma EachIsReached(s: State, n: nat, alerts: seq<Alert>, receivedAt: Time, faults: RowFaults,
                      r: BatchResult, after: Table)
    returns (landed: seq<Alert>)
    requires NodeAt(s, n).Idle? && EachOutcome(s.table, alerts, receivedAt, s.now, faults, r, after)
    ensures |landed| == r.inserted && Reaches(s, n, alerts, AfterCall(s, n, landed, after))
  {
    var k := FirstFatal(alerts, faults, 0);
    var p := RowByRow(s.table, alerts, receivedAt, s.now, faults, k);
    landed := p.succeeded;
    RowsAreReached(s, n, alerts, receivedAt, faults, k);
    var rows := AfterRows(s, n, alerts, receivedAt, faults, k);
    assert BeforeStop(s, n, rows, landed, p.table) && NodeAt(rows, n) == Inserting(alerts[k..], landed);
    hide Reaches;
    hide RowByRow;
    hide AfterRows;
    hide BeforeStop;
    hide PartlyRetired;
    if k < |alerts| {
      ThenStop(s, n, alerts, rows, landed, p.table);
    } else {
      ThenRetire(s, n, alerts, rows, landed, p.table, after);
    }
  }

  /** The state of a node that fell back, before it stops. */
  predicate BeforeStop(s: State, n: nat, end: State, landed: seq<Alert>, after: Table) {
    && n in end.nodes && end == AfterCall(s, n, landed, after).(nodes := end.nodes)
    && end.nodes[n := Idle] == s.nodes[n := Idle]
  }

  lemma ThenStop(s: State, n: nat, alerts: seq<Alert>, end: State, landed: seq<Alert>, after: Table)
    requires Reaches(s, n, alerts, end) && BeforeStop(s, n, end, landed, after)
    ensures Reaches(s, n, alerts, AfterCall(s, n, landed, after))
  {
    hide Reaches;
    ReachesFurther(s, n, alerts, end, Stop(n));
  }

  lemma ThenRetire(s: State, n: nat, alerts: seq<Alert>, rows: State, landed: seq<Alert>, table: Table, after: Table)
    requires Reaches(s, n, alerts, rows) && BeforeStop(s, n, rows, landed, table)
    requires NodeAt(rows, n) == Inserting([], landed) && PartlyRetired(table, landed, s.now, after)
    ensures Reaches(s, n, alerts, AfterCall(s, n, landed, after))
  {
    hide Reaches;
    var groups := GroupReferences(landed);
    var done :| done <= groups.Keys && after == RetireRows(table, GroupedRows(table, groups, done), s.now);
    ReachesFurther(s, n, alerts, rows, StartRetire(n));
    var retiring := Apply(rows, StartRetire(n));
    hide RetireRows;
    hide GroupedRows;
    GroupsAreReached(s, n, alerts, retiring, groups, done);
    ThenStop(s, n, alerts, AfterGroups(retiring, n, groups, done), landed, after);
  }

  /** Every outcome of a batch, failures and cut-short retirements included, is a run of the fleet. */
  lemma BatchIsARun(s: State, n: nat, alerts: seq<Alert>, receivedAt: Time,
                    txFaults: TxFaults, ctxDead: bool, rowFaults: RowFaults, r: BatchResult, after: Table)
    returns (end: State, landed: seq<Alert>)
    requires NodeAt(s, n).Idle?
    requires BatchOutcome(s.table, alerts, receivedAt, s.now, txFaults, ctxDead, rowFaults, r, after)
    ensures Reaches(s, n, alerts, end)
    ensures end.table == after && end.now == s.now && NodeAt(end, n).Idle?
    ensures |landed| == r.inserted && end.landed == s.landed + (set a | a in landed)
    ensures forall m :: m != n ==> NodeAt(end, m) == NodeAt(s, m)
  {
    DegradesExactly(s.table, alerts, receivedAt, s.now, txFaults, ctxDead, rowFaults, r, after);
    hide Reaches;
    ReachesItself(s, n, alerts);
    if r.degraded {
      landed := EachIsReached(s, n, alerts, receivedAt, rowFaults, r, after);
      end := AfterCall(s, n, landed, after);
    } else if r.err.None? && alerts != [] {
      landed := Queued(alerts);
      ReachesFurther(s, n, alerts, s, Transaction(n, alerts, receivedAt));
      end := Apply(s, Transaction(n, alerts, receivedAt));
    } else {
      end, landed := s, [];
    }
  }

  /** The verified write path, step for step a run of the fleet from the state it is called in. */
  method WriteBatch(store: Store, alerts: seq<Alert>, receivedAt: Time, now: Time, txFaults: TxFaults,
                    ctxDead: bool, rowFaults: RowFaults, ghost s: State, ghost n: nat)
    returns (r: BatchResult, ghost steps: seq<Step>)
    requires s.table == store.table && s.now == now && NodeAt(s, n).Idle?
    modifies store
    ensures Runs(s, steps) && StepsOf(n, alerts, steps)
    ensures After(s, steps).table == store.table && NodeAt(After(s, steps), n).Idle?
  {
    r := store.UpsertAlertsBatch(alerts, receivedAt, now, txFaults, ctxDead, rowFaults);
    ghost var end, landed := BatchIsARun(s, n, alerts, receivedAt, txFaults, ctxDead, rowFaults, r, store.table);
    steps :| Runs(s, steps) && StepsOf(n, alerts, steps) && After(s, steps) == end;
  }

  /** The verified purge is a step of the fleet, or no step when the DELETE fails. */
  method PurgeTable(store: Store, now: Time, fault: Option<Error>, ghost s: State)
    returns (deleted: int, ghost steps: seq<Step>)
    requires s.table == store.table && s.now == now
    modifies store
    ensures Runs(s, steps) && After(s, steps).table == store.table
    ensures steps == if fault.None? then [PurgeRows] else []
    ensures deleted == |s.table| - |After(s, steps).table|
  {
    var err;
    deleted, err := store.PurgeExpired(now, fault);
    steps := [];
    if fault.None? {
      steps := [PurgeRows];
      OneStep(s, PurgeRows);
    }
  }
}
