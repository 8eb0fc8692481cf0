/**
 The store's write path: grouping references, retiring, the batch transaction, the degraded
 per-row path and the purge (internal/store/supersede.go, internal/store/postgres.go).
 */
module AlertStore {
  import opened Common
  import opened AlertTable

  // ----- referencesByEventType -----

  type Groups = map<string, seq<string>>

  /** Appending one message's prior ids to its event type's group; empty identifiers are skipped. */
  function AddReferences(groups: Groups, event: string, refs: seq<string>): Groups {
    if refs == [] then groups
    else
      var before := AddReferences(groups, event, refs[..|refs| - 1]);
      var id := refs[|refs| - 1];
      if id == "" then before
      else before[event := (if event in before then before[event] else []) + [id]]
  }

  function GroupReferences(alerts: seq<Alert>): Groups {
    if alerts == [] then map[]
    else
      var a := alerts[|alerts| - 1];
      AddReferences(GroupReferences(alerts[..|alerts| - 1]), a.event, a.references)
  }

  predicate InGroup(groups: Groups, event: string, id: string) {
    event in groups && id in groups[event]
  }

  lemma {:induction false} AddReferencesMeaning(groups: Groups, event: string, refs: seq<string>)
    ensures forall e, id ::
      InGroup(AddReferences(groups, event, refs), e, id)
      <==> InGroup(groups, e, id) || (e == event && id != "" && id in refs)
    ensures forall e :: e in AddReferences(groups, event, refs) ==> e in groups || e == event
  {
    if refs == [] {
    } else {
      var init, id := refs[..|refs| - 1], refs[|refs| - 1];
      AddReferencesMeaning(groups, event, init);
      assert refs == init + [id];
      var before, after := AddReferences(groups, event, init), AddReferences(groups, event, refs);
      forall e, x ensures InGroup(after, e, x) <==> InGroup(before, e, x) || (e == event && id != "" && x == id) {
      }
    }
  }

  /** An id stands in a group exactly when some alert of that event type supersedes it. */
  lemma {:induction false} GroupReferencesMeaning(alerts: seq<Alert>)
    ensures forall e, id :: InGroup(GroupReferences(alerts), e, id) <==> Superseded(alerts, id, e)
  {
    if alerts == [] {
    } else {
      var init, a := alerts[..|alerts| - 1], alerts[|alerts| - 1];
      assert alerts == init + [a];
      GroupReferencesMeaning(init);
      AddReferencesMeaning(GroupReferences(init), a.event, a.references);
      forall e, id ensures Superseded(alerts, id, e) <==>
        Superseded(init, id, e) || (e == a.event && id != "" && id in a.references)
      {
        if id != "" && e == a.event && id in a.references {
          assert a in alerts;
        }
      }
    }
  }

  method ReferencesByEventType(alerts: seq<Alert>) returns (out: Groups)
    ensures out == GroupReferences(alerts)
    ensures forall e, id :: InGroup(out, e, id) <==> Superseded(alerts, id, e)
  {
    out := map[];
    for i := 0 to |alerts|
      invariant out == GroupReferences(alerts[..i])
    {
      var a := alerts[i];
      ghost var before := out;
      for j := 0 to |a.references|
        invariant out == AddReferences(before, a.event, a.references[..j])
      {
        assert a.references[..j + 1][..j] == a.references[..j];
        var id := a.references[j];
        if id != "" {
          out := out[a.event := (if a.event in out then out[a.event] else []) + [id]];
        }
      }
      assert a.references[..|a.references|] == a.references;
      assert alerts[..i + 1][..i] == alerts[..i];
    }
    assert alerts[..|alerts|] == alerts;
    GroupReferencesMeaning(alerts);
  }

  // ----- retireReferenced -----

  /** The unretired rows of `t` that the groups of these event types name. */
  function GroupedRows(t: Table, groups: Groups, events: set<string>): set<string> {
    set id | id in t && t[id].retiredAt.None? && t[id].eventType in events
             && InGroup(groups, t[id].eventType, id)
  }

  /** Retirement cut short: the UPDATE of some event types took effect, and nothing else changed. */
  ghost predicate PartlyRetired(before: Table, queued: seq<Alert>, now: Time, after: Table) {
    var groups := GroupReferences(queued);
    exists done :: done <= groups.Keys && after == RetireRows(before, GroupedRows(before, groups, done), now)
  }

  /** One more group retires rows no earlier group touched: the groups are split by the row's own type. */
  lemma RetireOneMoreGroup(t: Table, groups: Groups, events: set<string>, e: string, now: Time)
    requires e in groups && e !in events
    ensures
      var before := RetireRows(t, GroupedRows(t, groups, events), now);
      var rows := Matching(before, groups[e], e);
      && RetireByReference(before, groups[e], e, now) == RetireRows(t, GroupedRows(t, groups, events + {e}), now)
      && |GroupedRows(t, groups, events + {e})| == |GroupedRows(t, groups, events)| + |rows|
  {
    var before := RetireRows(t, GroupedRows(t, groups, events), now);
    var rows := Matching(before, groups[e], e);
    assert rows == GroupedRows(t, groups, {e});
    assert GroupedRows(t, groups, events + {e}) == GroupedRows(t, groups, events) + rows;
    assert GroupedRows(t, groups, events) !! rows;
  }

  datatype Retirement = Retirement(table: Table, total: nat)

  /** The UPDATE statements one after another, in this order of event types. */
  function RetireInOrder(t: Table, groups: Groups, order: seq<string>, now: Time): Retirement
    requires forall e :: e in order ==> e in groups
  {
    if order == [] then Retirement(t, 0)
    else
      var e := order[|order| - 1];
      var before := RetireInOrder(t, groups, order[..|order| - 1], now);
      Retirement(RetireByReference(before.table, groups[e], e, now),
                 before.total + |Matching(before.table, groups[e], e)|)
  }

  lemma {:induction false} RetireInOrderIsGrouped(t: Table, groups: Groups, order: seq<string>, now: Time)
    requires forall e :: e in order ==> e in groups
    requires forall i, j :: 0 <= i < j < |order| ==> order[i] != order[j]
    ensures
      var rows := GroupedRows(t, groups, set e | e in order);
      RetireInOrder(t, groups, order, now) == Retirement(RetireRows(t, rows, now), |rows|)
  {
    hide GroupedRows;
    hide RetireRows;
    hide Matching;
    hide RetireByReference;
    if order == [] {
      assert (set e | e in order) == {};
      NoGroupsNoRows(t, groups, now);
    } else {
      var n := |order| - 1;
      var init, e := order[..n], order[n];
      RetireInOrderIsGrouped(t, groups, init, now);
      assert e !in init;
      assert (set x | x in order) == (set x | x in init) + {e};
      RetireOneMoreGroup(t, groups, (set x | x in init), e, now);
    }
  }

  /**
   Any order of the event-type groups retires the same rows, and the total is the number of
   unretired rows that a same-type message of the batch names, however often it names them.
   */
  lemma RetirementIgnoresGroupOrder(t: Table, alerts: seq<Alert>, order: seq<string>, now: Time)
    requires (set e | e in order) == GroupReferences(alerts).Keys
    requires forall i, j :: 0 <= i < j < |order| ==> order[i] != order[j]
    ensures
      var rows := SupersededRows(t, alerts);
      RetireInOrder(t, GroupReferences(alerts), order, now) == Retirement(RetireRows(t, rows, now), |rows|)
  {
    assert forall e :: e in order ==> e in set x | x in order;
    RetireInOrderIsGrouped(t, GroupReferences(alerts), order, now);
    AllGroupsAreSuperseded(t, alerts);
  }

  lemma NoGroupsNoRows(t: Table, groups: Groups, now: Time)
    ensures GroupedRows(t, groups, {}) == {}
    ensures RetireRows(t, {}, now) == t
  {}

  /** Whichever groups were reached, only superseded rows are marked. */
  lemma SomeGroupsRetireSome(t: Table, alerts: seq<Alert>, now: Time, after: Table)
    requires PartlyRetired(t, alerts, now, after)
    ensures exists rows :: rows <= SupersededRows(t, alerts) && after == RetireRows(t, rows, now)
  {
    var groups := GroupReferences(alerts);
    var done :| done <= groups.Keys && after == RetireRows(t, GroupedRows(t, groups, done), now);
    AllGroupsAreSuperseded(t, alerts);
  }

  lemma AllGroupsAreSuperseded(t: Table, alerts: seq<Alert>)
    ensures GroupedRows(t, GroupReferences(alerts), GroupReferences(alerts).Keys) == SupersededRows(t, alerts)
  {
    GroupReferencesMeaning(alerts);
    var groups := GroupReferences(alerts);
    forall id | id in t && t[id].retiredAt.None?
      ensures InGroup(groups, t[id].eventType, id) <==> Superseded(alerts, id, t[id].eventType)
    {}
  }

  // ----- failures of the foreign calls -----

  /** `Fatal` is a context error: cancelled or past its deadline. */
  datatype Error = Fatal | Failed

  /** What the database answers during one transaction; indices are positions in the batch. */
  datatype TxFaults = TxFaults(
    begin: Option<Error>,
    marshal: set<nat>,
    insert: map<nat, Error>,
    close: Option<Error>,
    retire: map<string, Error>,
    commit: Option<Error>)

  /** What it answers on the per-row path. */
  datatype RowFaults = RowFaults(
    marshal: set<nat>,
    insert: map<nat, Error>,
    retire: map<string, Error>)

  /** No fault that this transaction meets. */
  predicate TxClean(alerts: seq<Alert>, faults: TxFaults) {
    && faults.begin.None? && faults.commit.None?
    && (forall i: nat :: i < |alerts| && Parseable(alerts[i]) ==>
          i !in faults.marshal && i !in faults.insert)
    && (Queued(alerts) != [] ==>
          faults.close.None? && GroupReferences(Queued(alerts)).Keys !! faults.retire.Keys)
  }

  /** The error of the first queued statement that fails, among the first `n` positions. */
  function FirstInsertFault(alerts: seq<Alert>, insert: map<nat, Error>, n: nat): (e: Option<Error>)
    requires n <= |alerts|
    ensures e.None? <==> forall i: nat :: i < n && Parseable(alerts[i]) ==> i !in insert
  {
    if n == 0 then None
    else
      var before := FirstInsertFault(alerts, insert, n - 1);
      if before.None? && Parseable(alerts[n - 1]) && n - 1 in insert then Some(insert[n - 1]) else before
  }

  /** What the statements and the close of the batch come to: the first error is kept. */
  function SendFault(alerts: seq<Alert>, insert: map<nat, Error>, close: Option<Error>): Option<Error> {
    var first := FirstInsertFault(alerts, insert, |alerts|);
    if first.Some? then first else close
  }

  /** The UPDATE of some event type fails with `e`; which of several comes first is the map's choice. */
  ghost predicate RetireFails(alerts: seq<Alert>, retire: map<string, Error>, e: Error) {
    exists event :: event in GroupReferences(alerts) && event in retire && retire[event] == e
  }

  /** The first fault the transaction meets can be `e`. */
  ghost predicate TxFails(alerts: seq<Alert>, faults: TxFaults, e: Error) {
    if faults.begin.Some? then e == faults.begin.value
    else if exists i: nat :: i < |alerts| && Parseable(alerts[i]) && i in faults.marshal then e == Failed
    else if Queued(alerts) == [] then faults.commit == Some(e)
    else if SendFault(alerts, faults.insert, faults.close).Some? then
      e == SendFault(alerts, faults.insert, faults.close).value
    else if !(GroupReferences(Queued(alerts)).Keys !! faults.retire.Keys) then
      RetireFails(Queued(alerts), faults.retire, e)
    else faults.commit == Some(e)
  }

  /** A transaction meets a fault exactly when it is not clean. */
  lemma CleanOrFails(alerts: seq<Alert>, faults: TxFaults)
    ensures TxClean(alerts, faults) <==> forall e :: !TxFails(alerts, faults, e)
  {
    var groups := GroupReferences(Queued(alerts));
    QueuedMembers(alerts);
    if event :| event in groups && event in faults.retire {
      assert RetireFails(Queued(alerts), faults.retire, faults.retire[event]);
    }
    assert faults.begin.Some? ==> TxFails(alerts, faults, faults.begin.value);
    if Queued(alerts) == [] {
      NothingQueued(map[], alerts, 0, 0);
    }
    if !TxClean(alerts, faults) {
      SomeFault(alerts, faults);
    }
  }

  lemma SomeFault(alerts: seq<Alert>, faults: TxFaults)
    requires !TxClean(alerts, faults)
    ensures exists e :: TxFails(alerts, faults, e)
  {
    var queued := Queued(alerts);
    var groups := GroupReferences(queued);
    if faults.begin.Some? {
      assert TxFails(alerts, faults, faults.begin.value);
    } else if exists i: nat :: i < |alerts| && Parseable(alerts[i]) && i in faults.marshal {
      assert TxFails(alerts, faults, Failed);
    } else if queued == [] {
      NothingQueued(map[], alerts, 0, 0);
      assert TxFails(alerts, faults, faults.commit.value);
    } else if SendFault(alerts, faults.insert, faults.close).Some? {
      assert TxFails(alerts, faults, SendFault(alerts, faults.insert, faults.close).value);
    } else if event :| event in groups && event in faults.retire {
      assert RetireFails(queued, faults.retire, faults.retire[event]);
      assert TxFails(alerts, faults, faults.retire[event]);
    } else {
      assert TxFails(alerts, faults, faults.commit.value);
    }
  }

  /** How one row fared on the per-row path. */
  datatype RowOutcome = Landed | Skipped | Rejected(error: Error)

  function OutcomeOf(alerts: seq<Alert>, faults: RowFaults, i: nat): RowOutcome
    requires i < |alerts|
  {
    if !Parseable(alerts[i]) then Skipped
    else if i in faults.marshal then Rejected(Failed)
    else if i in faults.insert then Rejected(faults.insert[i])
    else Landed
  }

  predicate RowFatal(alerts: seq<Alert>, faults: RowFaults, i: nat)
    requires i < |alerts|
  {
    OutcomeOf(alerts, faults, i) == Rejected(Fatal)
  }

  /** The first position at or after `n` whose row meets a context error, or the end of the batch. */
  function FirstFatal(alerts: seq<Alert>, faults: RowFaults, n: nat): (k: nat)
    requires n <= |alerts|
    ensures n <= k <= |alerts| && (k < |alerts| ==> RowFatal(alerts, faults, k))
    ensures forall i: nat :: n <= i < k ==> !RowFatal(alerts, faults, i)
    decreases |alerts| - n
  {
    if n == |alerts| || RowFatal(alerts, faults, n) then n else FirstFatal(alerts, faults, n + 1)
  }

  /** The rows that fail their own insert on the per-row path. */
  function FailedRows(alerts: seq<Alert>, faults: RowFaults): (f: set<nat>) {
    set i: nat | i < |alerts| && OutcomeOf(alerts, faults, i).Rejected?
  }

  /** The batch without the positions in `failed`. */
  function Without(alerts: seq<Alert>, failed: set<nat>): seq<Alert> {
    if alerts == [] then []
    else
      var n := |alerts| - 1;
      if n in failed then Without(alerts[..n], failed) else Without(alerts[..n], failed) + [alerts[n]]
  }

  /** One more position: its alert is appended unless it failed. */
  lemma WithoutOneMore(alerts: seq<Alert>, failed: set<nat>, n: nat)
    requires n < |alerts|
    ensures
      var before := Without(alerts[..n], failed);
      && Without(alerts[..n + 1], failed) == (if n in failed then before else before + [alerts[n]])
      && Queued(before + [alerts[n]]) == (if Parseable(alerts[n]) then Queued(before) + [alerts[n]] else Queued(before))
  {
    var before := Without(alerts[..n], failed);
    assert alerts[..n + 1][..n] == alerts[..n];
    assert (before + [alerts[n]])[..|before|] == before;
  }

  function Below(failed: set<nat>, n: nat): set<nat> {
    set i | i in failed && i < n
  }

  lemma LandOneMore(t: Table, batch: seq<Alert>, a: Alert, receivedAt: Time, now: Time)
    ensures LandAll(t, batch + [a], receivedAt, now) == Land(LandAll(t, batch, receivedAt, now), a, receivedAt, now)
  {
    assert (batch + [a])[..|batch|] == batch;
  }

  lemma BelowOneMore(failed: set<nat>, n: nat)
    ensures |Below(failed, n + 1)| == |Below(failed, n)| + (if n in failed then 1 else 0)
  {
    assert Below(failed, n + 1) == Below(failed, n) + (if n in failed then {n} else {});
  }

  lemma QueuedOneMore(alerts: seq<Alert>, n: nat)
    requires n < |alerts|
    ensures Queued(alerts[..n + 1])
         == if Parseable(alerts[n]) then Queued(alerts[..n]) + [alerts[n]] else Queued(alerts[..n])
  {
    assert alerts[..n + 1][..n] == alerts[..n];
  }

  lemma NothingQueued(t: Table, alerts: seq<Alert>, receivedAt: Time, now: Time)
    requires Queued(alerts) == []
    ensures CommitBatch(t, alerts, receivedAt, now) == t
    ensures forall i: nat :: i < |alerts| ==> !Parseable(alerts[i])
  {
    QueuedMembers(alerts);
    forall i: nat | i < |alerts| ensures !Parseable(alerts[i]) {
      assert alerts[i] in alerts;
    }
    forall id ensures RowOf(LandAll(t, alerts, receivedAt, now), id) == RowOf(t, id) {
      LastForMembers(alerts, id);
      LandAllRow(t, alerts, receivedAt, now, id);
    }
    TablesEqual(LandAll(t, alerts, receivedAt, now), t);
    assert SupersededRows(t, []) == {};
  }

  /** Every row is inserted, skipped for its expiry, or failed. */
  lemma {:induction false} RowsAreAccountedFor(alerts: seq<Alert>, failed: set<nat>, n: nat)
    requires n <= |alerts|
    requires forall i :: i in failed && i < |alerts| ==> Parseable(alerts[i])
    ensures |Queued(Without(alerts[..n], failed))| + (n - |Queued(alerts[..n])|) + |Below(failed, n)| == n
  {
    if n == 0 {
      assert alerts[..0] == [];
      assert Below(failed, 0) == {};
    } else {
      RowsAreAccountedFor(alerts, failed, n - 1);
      OneMoreIsAccountedFor(alerts, failed, n - 1);
    }
  }

  lemma OneMoreIsAccountedFor(alerts: seq<Alert>, failed: set<nat>, n: nat)
    requires n < |alerts| && (n in failed ==> Parseable(alerts[n]))
    ensures |Queued(Without(alerts[..n + 1], failed))| - |Queued(alerts[..n + 1])| + |Below(failed, n + 1)|
         == |Queued(Without(alerts[..n], failed))| - |Queued(alerts[..n])| + |Below(failed, n)|
  {
    hide Below;
    hide Without;
    hide Queued;
    WithoutOneMore(alerts, failed, n);
    QueuedOneMore(alerts, n);
    BelowOneMore(failed, n);
  }

  datatype BatchResult = BatchResult(inserted: int, skipped: int, degraded: bool, err: Option<Error>)

  /** The state of the per-row path. */
  datatype Progress = Progress(table: Table, succeeded: seq<Alert>, skipped: int)

  function RowStep(p: Progress, a: Alert, receivedAt: Time, now: Time, outcome: RowOutcome): Progress {
    match outcome
    case Landed => Progress(Land(p.table, a, receivedAt, now), p.succeeded + [a], p.skipped)
    case Skipped => p.(skipped := p.skipped + 1)
    case Rejected(_) => p
  }

  /** The per-row path after its first `n` rows, each row by its own outcome. */
  function RowByRow(t: Table, alerts: seq<Alert>, receivedAt: Time, now: Time, faults: RowFaults, n: nat): Progress
    requires n <= |alerts|
  {
    if n == 0 then Progress(t, [], 0)
    else
      RowStep(RowByRow(t, alerts, receivedAt, now, faults, n - 1),
              alerts[n - 1], receivedAt, now, OutcomeOf(alerts, faults, n - 1))
  }

  /** The transaction on the first `n` rows that did not fail. */
  function KeptRows(t: Table, alerts: seq<Alert>, receivedAt: Time, now: Time, faults: RowFaults, n: nat): Progress
    requires n <= |alerts|
  {
    var kept := Without(alerts[..n], FailedRows(alerts, faults));
    Progress(LandAll(t, kept, receivedAt, now), Queued(kept), n - |Queued(alerts[..n])|)
  }

  lemma KeptOneMore(t: Table, alerts: seq<Alert>, receivedAt: Time, now: Time, faults: RowFaults, n: nat)
    requires n < |alerts|
    ensures
      var before, outcome := KeptRows(t, alerts, receivedAt, now, faults, n), OutcomeOf(alerts, faults, n);
      KeptRows(t, alerts, receivedAt, now, faults, n + 1) == RowStep(before, alerts[n], receivedAt, now, outcome)
  {
    var failed := FailedRows(alerts, faults);
    var outcome := OutcomeOf(alerts, faults, n);
    var a, kept := alerts[n], Without(alerts[..n], failed);
    assert n in failed <==> outcome.Rejected?;
    assert Parseable(a) <==> !outcome.Skipped?;
    hide OutcomeOf;
    hide FailedRows;
    WithoutOneMore(alerts, failed, n);
    hide Without;
    QueuedOneMore(alerts, n);
    hide Queued;
    if !outcome.Rejected? {
      LandOneMore(t, kept, a, receivedAt, now);
      if outcome.Skipped? {
        SkippedLandsNothing(LandAll(t, kept, receivedAt, now), a, receivedAt, now);
      }
    }
    hide LandAll;
    hide Land;
  }

  lemma SkippedLandsNothing(t: Table, a: Alert, receivedAt: Time, now: Time)
    requires !Parseable(a)
    ensures Land(t, a, receivedAt, now) == t
  {}

  lemma {:induction false} RowByRowLands(t: Table, alerts: seq<Alert>, receivedAt: Time, now: Time,
                                         faults: RowFaults, n: nat)
    requires n <= |alerts|
    ensures RowByRow(t, alerts, receivedAt, now, faults, n) == KeptRows(t, alerts, receivedAt, now, faults, n)
  {
    if n == 0 {
      assert KeptRows(t, alerts, receivedAt, now, faults, 0) == Progress(t, [], 0);
    } else {
      RowByRowLands(t, alerts, receivedAt, now, faults, n - 1);
      KeptOneMore(t, alerts, receivedAt, now, faults, n - 1);
    }
  }

  /**
   The degraded path refines the transaction: per-row inserts with the rows in F failing, then one
   retirement, leave the table of the transaction run on the batch without F.
   */
  lemma DegradedRefinesTransaction(t: Table, alerts: seq<Alert>, receivedAt: Time, now: Time, faults: RowFaults)
    ensures
      var p := RowByRow(t, alerts, receivedAt, now, faults, |alerts|);
      var failed := FailedRows(alerts, faults);
      && RetireRows(p.table, SupersededRows(p.table, p.succeeded), now)
         == CommitBatch(t, Without(alerts, failed), receivedAt, now)
      && p.succeeded == Queued(Without(alerts, failed))
      && p.skipped == |alerts| - |Queued(alerts)|
      && |p.succeeded| + p.skipped + |failed| == |alerts|
  {
    var failed := FailedRows(alerts, faults);
    RowByRowLands(t, alerts, receivedAt, now, faults, |alerts|);
    RowsAreAccountedFor(alerts, failed, |alerts|);
    assert alerts[..|alerts|] == alerts && Below(failed, |alerts|) == failed;
  }

  // ----- what a whole call leaves -----

  /**
   The per-row path: the rows before the first context error fare by their own outcomes, and when there is
   none the landed rows retire what they supersede, event type by event type, until an UPDATE fails.
   */
  ghost predicate EachOutcome(t: Table, alerts: seq<Alert>, receivedAt: Time, now: Time, faults: RowFaults,
                              r: BatchResult, after: Table)
  {
    var k := FirstFatal(alerts, faults, 0);
    var p := RowByRow(t, alerts, receivedAt, now, faults, k);
    && r == BatchResult(|p.succeeded|, p.skipped, true, if k < |alerts| then Some(Fatal) else None)
    && (k < |alerts| ==> after == p.table)
    && (k == |alerts| ==>
          && PartlyRetired(p.table, p.succeeded, now, after)
          && (GroupReferences(p.succeeded).Keys !! faults.retire.Keys ==>
                after == RetireRows(p.table, SupersededRows(p.table, p.succeeded), now)))
  }

  /** Which path a batch takes, what it returns and what it leaves. */
  ghost predicate BatchOutcome(t: Table, alerts: seq<Alert>, receivedAt: Time, now: Time,
                               txFaults: TxFaults, ctxDead: bool, rowFaults: RowFaults,
                               r: BatchResult, after: Table)
  {
    if alerts == [] then r == BatchResult(0, 0, false, None) && after == t
    else if TxClean(alerts, txFaults) then
      && r == BatchResult(|Queued(alerts)|, |alerts| - |Queued(alerts)|, false, None)
      && after == CommitBatch(t, alerts, receivedAt, now)
    else
      || ((ctxDead || TxFails(alerts, txFaults, Fatal)) && r == BatchResult(0, 0, false, Some(Fatal)) && after == t)
      || (!ctxDead && TxFails(alerts, txFaults, Failed)
          && EachOutcome(t, alerts, receivedAt, now, rowFaults, r, after))
  }

  /** A batch whose transaction fails for a reason other than the context always takes the per-row path. */
  lemma DegradesExactly(t: Table, alerts: seq<Alert>, receivedAt: Time, now: Time,
                        txFaults: TxFaults, ctxDead: bool, rowFaults: RowFaults, r: BatchResult, after: Table)
    requires BatchOutcome(t, alerts, receivedAt, now, txFaults, ctxDead, rowFaults, r, after)
    ensures !TxFails(alerts, txFaults, Fatal) ==>
      (r.degraded <==> alerts != [] && !TxClean(alerts, txFaults) && !ctxDead)
    ensures r.degraded ==> EachOutcome(t, alerts, receivedAt, now, rowFaults, r, after)
    ensures !r.degraded && r.err.Some? ==> r == BatchResult(0, 0, false, Some(Fatal)) && after == t
    ensures r.err == None || r.err == Some(Fatal)
  {
    CleanOrFails(alerts, txFaults);
    hide TxFails;
    hide TxClean;
    hide CommitBatch;
    hide RowByRow;
    hide FirstFatal;
    hide PartlyRetired;
  }

  /**
   The degraded path with no context error: every row is accounted for, and it leaves what the transaction
   leaves on the batch without its failed rows, short of the retirements whose UPDATE did not run.
   */
  lemma DegradedOutcome(t: Table, alerts: seq<Alert>, receivedAt: Time, now: Time, faults: RowFaults,
                        r: BatchResult, after: Table)
    requires EachOutcome(t, alerts, receivedAt, now, faults, r, after) && r.err.None?
    ensures
      var failed := FailedRows(alerts, faults);
      var kept := Without(alerts, failed);
      && r.inserted == |Queued(kept)| && r.inserted + r.skipped + |failed| == |alerts|
      && PartlyRetired(LandAll(t, kept, receivedAt, now), Queued(kept), now, after)
      && (GroupReferences(Queued(kept)).Keys !! faults.retire.Keys ==> after == CommitBatch(t, kept, receivedAt, now))
  {
    DegradedRefinesTransaction(t, alerts, receivedAt, now, faults);
    RowByRowLands(t, alerts, receivedAt, now, faults, |alerts|);
    assert alerts[..|alerts|] == alerts;
  }

  // ----- what a nil error vouches for -----

  predicate KeptAt(alerts: seq<Alert>, failed: set<nat>, i: nat, a: Alert) {
    i < |alerts| && i !in failed && alerts[i] == a
  }

  lemma {:induction false} WithoutMembers(alerts: seq<Alert>, failed: set<nat>)
    ensures forall a :: a in Without(alerts, failed) <==> exists i: nat :: KeptAt(alerts, failed, i, a)
  {
    if alerts == [] {
    } else {
      var n := |alerts| - 1;
      WithoutMembers(alerts[..n], failed);
      forall a ensures a in Without(alerts, failed) <==> exists i: nat :: KeptAt(alerts, failed, i, a) {
        if a in Without(alerts, failed) {
          if a in Without(alerts[..n], failed) {
            var i: nat :| KeptAt(alerts[..n], failed, i, a);
            assert KeptAt(alerts, failed, i, a);
          } else {
            assert KeptAt(alerts, failed, n, a);
          }
        }
        if i: nat :| KeptAt(alerts, failed, i, a) {
          assert i < n ==> KeptAt(alerts[..n], failed, i, a);
        }
      }
    }
  }

  lemma {:induction false} WithoutNone(alerts: seq<Alert>)
    ensures Without(alerts, {}) == alerts
  {
    if alerts == [] {
    } else {
      var n := |alerts| - 1;
      WithoutNone(alerts[..n]);
      assert alerts == alerts[..n] + [alerts[n]];
    }
  }

  lemma LandAllKeys(t: Table, batch: seq<Alert>, receivedAt: Time, now: Time)
    ensures forall id :: id in LandAll(t, batch, receivedAt, now) <==>
      id in t || exists a :: a in batch && Parseable(a) && a.id == id
  {
    forall id ensures id in LandAll(t, batch, receivedAt, now) <==>
      id in t || exists a :: a in batch && Parseable(a) && a.id == id
    {
      LandAllRow(t, batch, receivedAt, now, id);
      LastForMembers(batch, id);
      assert id in LandAll(t, batch, receivedAt, now) <==> RowOf(LandAll(t, batch, receivedAt, now), id).Some?;
    }
  }

  /** Every parseable message of the batch has a row. */
  predicate HasRows(alerts: seq<Alert>, table: Table) {
    forall a :: a in alerts && Parseable(a) ==> a.id in table
  }

  /** The row at `j` did not fail and has this id. */
  predicate LandsAt(alerts: seq<Alert>, failed: set<nat>, j: nat, id: string) {
    j < |alerts| && j !in failed && Parseable(alerts[j]) && alerts[j].id == id
  }

  /** A rejected row is there all the same when its id was there, or another row with its id landed. */
  ghost predicate RejectedAreCovered(t: Table, alerts: seq<Alert>, failed: set<nat>) {
    forall i: nat :: i in failed && i < |alerts| ==>
      alerts[i].id in t || exists j: nat :: LandsAt(alerts, failed, j, alerts[i].id)
  }

  lemma KeptRowsCover(t: Table, alerts: seq<Alert>, failed: set<nat>, receivedAt: Time, now: Time)
    requires forall i: nat :: i in failed && i < |alerts| ==> Parseable(alerts[i])
    ensures HasRows(alerts, LandAll(t, Without(alerts, failed), receivedAt, now))
       <==> RejectedAreCovered(t, alerts, failed)
  {
    var kept := Without(alerts, failed);
    var after := LandAll(t, kept, receivedAt, now);
    LandAllKeys(t, kept, receivedAt, now);
    WithoutMembers(alerts, failed);
    hide LandAll;
    hide Without;
    if RejectedAreCovered(t, alerts, failed) {
      forall a | a in alerts && Parseable(a) ensures a.id in after {
        var i: nat :| i < |alerts| && alerts[i] == a;
        if i in failed && a.id !in t {
          var j: nat :| LandsAt(alerts, failed, j, a.id);
          assert KeptAt(alerts, failed, j, alerts[j]);
        } else if i !in failed {
          assert KeptAt(alerts, failed, i, a);
        }
      }
    }
    if HasRows(alerts, after) {
      forall i: nat | i in failed && i < |alerts| && alerts[i].id !in t
        ensures exists j: nat :: LandsAt(alerts, failed, j, alerts[i].id)
      {
        assert alerts[i] in alerts;
        var a :| a in kept && Parseable(a) && a.id == alerts[i].id;
        var j: nat :| KeptAt(alerts, failed, j, a);
        assert LandsAt(alerts, failed, j, alerts[i].id);
      }
    }
  }

  /**
   A nil error vouches for the whole batch, a row for every parseable message, exactly when the path was
   clean or every rejected row is there for another reason; and that all landed shows in the counts.
   */
  lemma NilErrorExactly(t: Table, alerts: seq<Alert>, receivedAt: Time, now: Time,
                        txFaults: TxFaults, ctxDead: bool, rowFaults: RowFaults, r: BatchResult, after: Table)
    requires BatchOutcome(t, alerts, receivedAt, now, txFaults, ctxDead, rowFaults, r, after) && r.err.None?
    ensures HasRows(alerts, after) <==> (r.degraded ==> RejectedAreCovered(t, alerts, FailedRows(alerts, rowFaults)))
    ensures r.inserted + r.skipped == |alerts| <==> (r.degraded ==> FailedRows(alerts, rowFaults) == {})
    ensures r.inserted + r.skipped == |alerts| ==>
      PartlyRetired(LandAll(t, alerts, receivedAt, now), Queued(alerts), now, after)
  {
    DegradesExactly(t, alerts, receivedAt, now, txFaults, ctxDead, rowFaults, r, after);
    if r.degraded {
      DegradedOutcome(t, alerts, receivedAt, now, rowFaults, r, after);
      KeptRowsCover(t, alerts, FailedRows(alerts, rowFaults), receivedAt, now);
      WithoutNone(alerts);
    } else {
      WholeBatch(t, alerts, receivedAt, now);
    }
  }

  lemma WholeBatch(t: Table, alerts: seq<Alert>, receivedAt: Time, now: Time)
    ensures
      var after := CommitBatch(t, alerts, receivedAt, now);
      HasRows(alerts, after) && PartlyRetired(LandAll(t, alerts, receivedAt, now), Queued(alerts), now, after)
    ensures alerts == [] ==> CommitBatch(t, alerts, receivedAt, now) == t
  {
    var landed := LandAll(t, alerts, receivedAt, now);
    LandAllKeys(t, alerts, receivedAt, now);
    AllGroupsAreSuperseded(landed, Queued(alerts));
    if alerts == [] {
      NothingQueued(t, alerts, receivedAt, now);
    }
  }

  /** A nil error can leave nothing behind: a batch every row of which is rejected returns one. */
  lemma NilErrorMayStoreNothing(t: Table, alerts: seq<Alert>, receivedAt: Time, now: Time, rows: set<nat>)
    requires alerts != [] && forall a :: a in alerts ==> Parseable(a)
    requires forall i: nat :: i < |alerts| ==> i in rows
    ensures
      BatchOutcome(t, alerts, receivedAt, now, TxFaults(Some(Failed), {}, map[], None, map[], None), false,
                   RowFaults(rows, map[], map[]), BatchResult(0, 0, true, None), t)
  {
    var txFaults, faults := TxFaults(Some(Failed), {}, map[], None, map[], None), RowFaults(rows, map[], map[]);
    assert FirstFatal(alerts, faults, 0) == |alerts|;
    EveryRowRejected(t, alerts, receivedAt, now, faults, |alerts|);
    NoGroupsNoRows(t, GroupReferences([]), now);
    assert PartlyRetired(t, [], now, t);
    assert SupersededRows(t, []) == {};
  }

  lemma {:induction false} EveryRowRejected(t: Table, alerts: seq<Alert>, receivedAt: Time, now: Time,
                                            faults: RowFaults, n: nat)
    requires n <= |alerts| && forall i: nat :: i < |alerts| ==> Parseable(alerts[i]) && i in faults.marshal
    ensures RowByRow(t, alerts, receivedAt, now, faults, n) == Progress(t, [], 0)
  {
    if n == 0 {
    } else {
      EveryRowRejected(t, alerts, receivedAt, now, faults, n - 1);
    }
  }

  class Store {
    var table: Table

    constructor ()
      ensures table == map[]
    {
      table := map[];
    }

    /** One UPDATE per event type, in whatever order the map yields them; the first error stops. */
    method RetireReferenced(alerts: seq<Alert>, now: Time, faults: map<string, Error>)
      returns (total: int, err: Option<Error>)
      modifies this
      ensures err.None? <==> GroupReferences(alerts).Keys !! faults.Keys
      ensures err.Some? ==> RetireFails(alerts, faults, err.value)
      ensures err.None? ==> table == RetireRows(old(table), SupersededRows(old(table), alerts), now)
      ensures err.None? ==> total == |SupersededRows(old(table), alerts)|
      ensures PartlyRetired(old(table), alerts, now, table)
    {
      total, err := 0, None;
      var groups := ReferencesByEventType(alerts);
      var todo := groups.Keys;
      ghost var done: set<string> := {};
      AllGroupsAreSuperseded(table, alerts);
      NoGroupsNoRows(table, groups, now);
      hide GroupedRows;
      hide RetireRows;
      hide SupersededRows;
      hide Matching;
      hide RetireByReference;
      while todo != {}
        invariant done + todo == groups.Keys && done !! todo && done !! faults.Keys
        invariant table == RetireRows(old(table), GroupedRows(old(table), groups, done), now)
        invariant total == |GroupedRows(old(table), groups, done)|
        decreases todo
      {
        var e :| e in todo;
        if e in faults {
          return total, Some(faults[e]);
        }
        RetireOneMoreGroup(old(table), groups, done, e, now);
        total := total + |Matching(table, groups[e], e)|;
        table := RetireByReference(table, groups[e], e, now);
        todo, done := todo - {e}, done + {e};
      }
      assert done == groups.Keys;
    }

    /** alertUpsertArgs over the batch: which alerts are queued. */
    method QueueBatch(alerts: seq<Alert>, marshal: set<nat>)
      returns (queued: seq<Alert>, skipped: int, err: Option<Error>)
      ensures err.None? <==> forall i: nat :: i < |alerts| && Parseable(alerts[i]) ==> i !in marshal
      ensures err.None? || err == Some(Failed)
      ensures err.None? ==> queued == Queued(alerts) && |queued| + skipped == |alerts|
    {
      queued, skipped, err := [], 0, None;
      for i := 0 to |alerts|
        invariant queued == Queued(alerts[..i]) && |queued| + skipped == i
        invariant forall j: nat :: j < i && Parseable(alerts[j]) ==> j !in marshal
      {
        QueuedOneMore(alerts, i);
        if !Parseable(alerts[i]) {
          skipped := skipped + 1;
        } else if i in marshal {
          return queued, skipped, Some(Failed);
        } else {
          queued := queued + [alerts[i]];
        }
      }
      assert alerts[..|alerts|] == alerts;
    }

    /** The queued upserts, run inside the transaction; the first error is kept and the rest are drained. */
    method SendBatch(alerts: seq<Alert>, receivedAt: Time, now: Time, insert: map<nat, Error>, close: Option<Error>)
      returns (err: Option<Error>)
      modifies this
      ensures err == SendFault(alerts, insert, close)
      ensures err.None? ==> table == LandAll(old(table), alerts, receivedAt, now)
    {
      err := None;
      for i := 0 to |alerts|
        invariant err == FirstInsertFault(alerts, insert, i)
        invariant err.None? ==> table == LandAll(old(table), alerts[..i], receivedAt, now)
      {
        assert alerts[..i + 1] == alerts[..i] + [alerts[i]];
        LandOneMore(old(table), alerts[..i], alerts[i], receivedAt, now);
        var times := ParseAlertTimes(alerts[i], receivedAt);
        if times.Some? {
          if i !in insert {
            table := Upsert(table, alerts[i], times.value, now);
          } else if err.None? {
            err := Some(insert[i]);
          }
        }
      }
      assert alerts[..|alerts|] == alerts;
      err := if err.None? then close else err;
    }

    /** All upserts and the retirement, or nothing. */
    method UpsertAlertsBatchTx(alerts: seq<Alert>, receivedAt: Time, now: Time, faults: TxFaults)
      returns (inserted: int, skipped: int, err: Option<Error>)
      modifies this
      ensures err.None? <==> TxClean(alerts, faults)
      ensures err.Some? ==> TxFails(alerts, faults, err.value)
      ensures err.None? ==> table == CommitBatch(old(table), alerts, receivedAt, now)
      ensures err.None? ==> inserted == |Queued(alerts)| && inserted + skipped == |alerts|
      ensures err.Some? ==> table == old(table) && inserted == 0
    {
      if faults.begin.Some? {
        return 0, 0, faults.begin;
      }
      var queued, dropped, queueErr := QueueBatch(alerts, faults.marshal);
      if queueErr.Some? {
        return 0, 0, queueErr;
      }
      if queued == [] {
        NothingQueued(table, alerts, receivedAt, now);
        if faults.commit.Some? {
          return 0, dropped, faults.commit;
        }
        return 0, dropped, None;
      }
      var tx := new Store();
      tx.table := table;
      var batchErr := tx.SendBatch(alerts, receivedAt, now, faults.insert, faults.close);
      if batchErr.Some? {
        return 0, 0, batchErr;
      }
      var _, retireErr := tx.RetireReferenced(queued, now, faults.retire);
      if retireErr.Some? {
        return 0, 0, retireErr;
      }
      if faults.commit.Some? {
        return 0, 0, faults.commit;
      }
      table := tx.table;
      return |queued|, dropped, None;
    }

    /** One pooled statement for the alert at position `i`. */
    method UpsertAlert(alerts: seq<Alert>, i: nat, receivedAt: Time, now: Time, faults: RowFaults)
      returns (outcome: RowOutcome)
      requires i < |alerts|
      modifies this
      ensures outcome == OutcomeOf(alerts, faults, i)
      ensures outcome.Skipped? <==> alerts[i].expires.None?
      ensures outcome.Landed? <==> alerts[i].expires.Some? && i !in faults.marshal && i !in faults.insert
      ensures outcome == Rejected(Fatal) <==>
        alerts[i].expires.Some? && i !in faults.marshal && i in faults.insert && faults.insert[i].Fatal?
      ensures table == if outcome.Landed? then Land(old(table), alerts[i], receivedAt, now) else old(table)
      ensures outcome.Landed? ==>
        var a, id := alerts[i], alerts[i].id;
        && table.Keys == old(table).Keys + {id}
        && (forall other :: other in old(table) && other != id ==> table[other] == old(table)[other])
        && table[id] ==
             if id in old(table) then
               old(table)[id].(
                 eventType := a.event, content := a.content, expiresAt := a.expires.value, updatedAt := now)
             else
               Row(a.event, a.content, a.sender, if a.effective.Some? then a.effective.value else receivedAt,
                   a.expires.value, now, now, None)
    {
      var times := ParseAlertTimes(alerts[i], receivedAt);
      if times.None? {
        return Skipped;
      }
      if i in faults.marshal {
        return Rejected(Failed);
      }
      if i in faults.insert {
        return Rejected(faults.insert[i]);
      }
      table := Upsert(table, alerts[i], times.value, now);
      return Landed;
    }

    /** Each good row lands alone, in order; a context error stops the loop. */
    method InsertEach(alerts: seq<Alert>, receivedAt: Time, now: Time, faults: RowFaults)
      returns (succeeded: seq<Alert>, skipped: int, err: Option<Error>)
      modifies this
      ensures
        var k := FirstFatal(alerts, faults, 0);
        && err == (if k < |alerts| then Some(Fatal) else None)
        && Progress(table, succeeded, skipped) == RowByRow(old(table), alerts, receivedAt, now, faults, k)
    {
      succeeded, skipped, err := [], 0, None;
      for i := 0 to |alerts|
        invariant Progress(table, succeeded, skipped) == RowByRow(old(table), alerts, receivedAt, now, faults, i)
        invariant FirstFatal(alerts, faults, i) == FirstFatal(alerts, faults, 0)
      {
        var outcome := UpsertAlert(alerts, i, receivedAt, now, faults);
        match outcome
        case Landed => succeeded := succeeded + [alerts[i]];
        case Skipped => skipped := skipped + 1;
        case Rejected(e) =>
          if e.Fatal? {
            return succeeded, skipped, Some(Fatal);
          }
      }
    }

    /** The per-row path, and then the landed rows retire what they supersede; its errors are only logged. */
    method UpsertEach(alerts: seq<Alert>, receivedAt: Time, now: Time, faults: RowFaults) returns (r: BatchResult)
      modifies this
      ensures EachOutcome(old(table), alerts, receivedAt, now, faults, r, table)
    {
      var succeeded, skipped, err := InsertEach(alerts, receivedAt, now, faults);
      if err.Some? {
        return BatchResult(|succeeded|, skipped, true, err);
      }
      var _, retireErr := RetireReferenced(succeeded, now, faults.retire);
      return BatchResult(|succeeded|, skipped, true, None);
    }

    /**
     The transaction first; per-row inserts when it fails for a reason other than the context.
     `ctxDead` is the context's own state once the transaction has failed.
     */
    method UpsertAlertsBatch(alerts: seq<Alert>, receivedAt: Time, now: Time,
                             txFaults: TxFaults, ctxDead: bool, rowFaults: RowFaults)
      returns (r: BatchResult)
      modifies this
      ensures BatchOutcome(old(table), alerts, receivedAt, now, txFaults, ctxDead, rowFaults, r, table)
    {
      if |alerts| == 0 {
        return BatchResult(0, 0, false, None);
      }
      var inserted, skipped, err := UpsertAlertsBatchTx(alerts, receivedAt, now, txFaults);
      if err.None? {
        return BatchResult(inserted, skipped, false, None);
      }
      if err.value.Fatal? {
        return BatchResult(0, 0, false, err);
      }
      if ctxDead {
        return BatchResult(0, 0, false, Some(Fatal));
      }
      r := UpsertEach(alerts, receivedAt, now, rowFaults);
    }

    /** The DELETE, which may fail and then deletes nothing. */
    method PurgeExpired(now: Time, fault: Option<Error>) returns (deleted: int, err: Option<Error>)
      modifies this
      ensures err == fault
      ensures fault.Some? ==> table == old(table) && deleted == 0
      ensures fault.None? ==> table == Purge(old(table), now)
      ensures deleted == |old(table)| - |table|
      ensures forall id :: id in old(table) <==> id in table || (id in old(table) && old(table)[id].expiresAt < now)
      ensures forall id :: id in table ==> table[id] == old(table)[id] && (fault.None? ==> table[id].expiresAt >= now)
      ensures forall id :: Active(old(table), now, id) <==> Active(table, now, id)
    {
      if fault.Some? {
        return 0, fault;
      }
      err := None;
      var kept := Purge(table, now);
      deleted := |table| - |kept|;
      table := kept;
    }
  }
}
