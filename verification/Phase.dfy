/** The publish phase of one cycle: query, merged put, and the per-state puts (internal/poller/poller.go). */
module PublishPhase {
  import opened Common
  import opened Config
  import opened AlertTable
  import opened Collapse
  import opened Areas
  import opened Publish
  import opened Health
  import Snapshot
  import Fanout

  /** How the foreign put of one state goes: it panics, or makes these attempts. */
  datatype PutScript = Panics | Attempts(attempts: seq<Attempt>)

  predicate Scripted(script: PutScript) {
    script.Attempts? ==> |script.attempts| >= MAX_TRIES
  }

  function PutEnd(script: PutScript): Fanout.PutResult
    requires Scripted(script)
  {
    match script
    case Panics => Fanout.PutPanicked
    case Attempts(attempts) => if PutSucceeds(attempts) then Fanout.Succeeded else Fanout.GaveUp
  }

  /** The fan-out of these areas under these scripts. */
  function JobOf(areas: seq<string>, scripts: seq<PutScript>): (job: Fanout.Job)
    requires |areas| == |scripts| && forall i :: 0 <= i < |scripts| ==> Scripted(scripts[i])
    ensures Fanout.WellFormed(job)
  {
    Fanout.Job(areas, seq(|scripts|, i requires 0 <= i < |scripts| => PutEnd(scripts[i])))
  }

  method Put(script: PutScript) returns (end: Fanout.PutResult)
    requires Scripted(script)
    ensures end == PutEnd(script)
  {
    if script.Panics? {
      return Fanout.PutPanicked;
    }
    var r := AttemptPublish(script.attempts, MAX_TRIES, PUBLISH_PUT_RETRY_DELAY);
    return if r.err.None? then Fanout.Succeeded else Fanout.GaveUp;
  }

  /** The merged file this phase wrote, if it did, and the per-state files it wrote. */
  datatype Published = Published(merged: Option<seq<ActiveAlert>>, shards: map<string, seq<ActiveAlert>>)

  /** Some put of this area succeeded. */
  predicate Written(areas: seq<string>, scripts: seq<PutScript>, n: nat, area: string)
    requires n <= |areas| == |scripts| && forall i :: 0 <= i < |scripts| ==> Scripted(scripts[i])
  {
    exists i :: 0 <= i < n && areas[i] == area && PutEnd(scripts[i]).Succeeded?
  }

  /** Every goroutine filters the snapshot for its own state and puts that; the order does not matter. */
  method WriteShards(alerts: seq<ActiveAlert>, areas: seq<string>, scripts: seq<PutScript>)
    returns (shards: map<string, seq<ActiveAlert>>)
    requires |areas| == |scripts| && forall i :: 0 <= i < |scripts| ==> Scripted(scripts[i])
    ensures forall area :: area in shards <==> Written(areas, scripts, |areas|, area)
    ensures forall area :: area in shards ==> shards[area] == Shard(alerts, area)
  {
    shards := map[];
    for i := 0 to |areas|
      invariant forall area :: area in shards <==> Written(areas, scripts, i, area)
      invariant forall area :: area in shards ==> shards[area] == Shard(alerts, area)
    {
      var filtered := FilterAlertsByState(alerts, areas[i]);
      var end := Put(scripts[i]);
      if end.Succeeded? {
        shards := shards[areas[i] := filtered];
      }
    }
  }

  /**
   The whole phase. `ids` is the cursor of the query, or None when it fails. What is written is the collapsed
   snapshot of the table and each state's share of it; the merged put alone decides the phase, and the counters
   are those of this phase whatever earlier ones left.
   */
  method PublishSnapshot(t: Table, now: Time, ids: Option<seq<string>>, stateFor: string -> Option<string>,
                         known: string -> bool, ghost statesOf: Row -> seq<string>, areas: seq<string>,
                         merged: seq<Attempt>, scripts: seq<PutScript>,
                         scheduler: Fanout.State -> Fanout.Step, at: Time, registry: Registry)
    returns (mergedOK: bool, out: Published)
    requires ids.Some? ==> Snapshot.TextTable(t) && Snapshot.IsQueryResult(t, now, ids.value)
    requires Snapshot.DerivesStates(statesOf, stateFor, known)
    requires |merged| >= MAX_TRIES
    requires |areas| == |scripts| && forall i :: 0 <= i < |scripts| ==> Scripted(scripts[i])
    requires Fanout.Schedules(JobOf(areas, scripts), scheduler)
    modifies registry
    ensures mergedOK <==> ids.Some? && PutSucceeds(merged)
    ensures registry.last == if mergedOK then old(registry.last)[FeedPublish := at] else old(registry.last)
    ensures ids.None? ==>
      out == Published(None, map[]) && registry.publishFailures == old(registry.publishFailures)
    ensures ids.Some? ==>
      var alerts := Snapshot.SnapshotOf(t, ids.value, statesOf);
      && out.merged == (if mergedOK then Some(alerts) else None)
      && (forall area :: area in out.shards <==>
            exists i :: 0 <= i < |areas| && areas[i] == area
              && scripts[i].Attempts? && PutSucceeds(scripts[i].attempts))
      && (forall area :: area in out.shards ==> out.shards[area] == Shard(alerts, area))
      && (NoRepeats(areas) ==> forall i: nat :: i < |areas| ==>
            CountOf(registry.publishFailures, areas[i]) == if areas[i] in out.shards then 0 else 1)
      && (forall area ::
            CountOf(registry.publishFailures, area)
            == Fanout.FailedPuts(JobOf(areas, scripts), |areas|, area))
  {
    if ids.None? {
      return false, Published(None, map[]);
    }
    var alerts := Snapshot.GetActiveAlerts(t, now, ids.value, stateFor, known, statesOf);
    registry.ResetPublishFailures();
    var put := AttemptPublish(merged, MAX_TRIES, PUBLISH_PUT_RETRY_DELAY);
    mergedOK := put.err.None?;
    if mergedOK {
      registry.RecordSuccess(FeedPublish, at);
    }
    Fanout.PublishPerStateSnapshots(JobOf(areas, scripts), scheduler, registry);
    var shards := WriteShards(alerts, areas, scripts);
    out := Published(if mergedOK then Some(alerts) else None, shards);
    WrittenExactly(areas, scripts);
  }

  /** For distinct areas: written when its own put succeeded, and counted as failed otherwise. */
  lemma WrittenExactly(areas: seq<string>, scripts: seq<PutScript>)
    requires |areas| == |scripts| && forall i :: 0 <= i < |scripts| ==> Scripted(scripts[i])
    ensures forall area :: Written(areas, scripts, |areas|, area) <==>
      exists i :: 0 <= i < |areas| && areas[i] == area && scripts[i].Attempts? && PutSucceeds(scripts[i].attempts)
    ensures NoRepeats(areas) ==> forall i: nat :: i < |areas| ==>
      Fanout.FailedPuts(JobOf(areas, scripts), |areas|, areas[i])
      == if Written(areas, scripts, |areas|, areas[i]) then 0 else 1
  {
    if NoRepeats(areas) {
      forall i: nat | i < |areas|
        ensures Fanout.FailedPuts(JobOf(areas, scripts), |areas|, areas[i])
             == if Written(areas, scripts, |areas|, areas[i]) then 0 else 1
      {
        var job := JobOf(areas, scripts);
        Fanout.FailedOnce(job, |areas|, i);
        assert job.results[i] == PutEnd(scripts[i]);
        if j :| 0 <= j < |areas| && areas[j] == areas[i] && PutEnd(scripts[j]).Succeeded? {
          assert j == i;
        }
      }
    }
  }

  /**
   What reaches the reader: every unexpired, unretired row of the table is represented in the merged file and,
   for each state it covers whose put succeeded, in that state's file.
   */
  lemma PublishedFilesCover(t: Table, now: Time, ids: seq<string>, statesOf: Row -> seq<string>, id: string)
    returns (w: ActiveAlert)
    requires Snapshot.IsQueryResult(t, now, ids) && Active(t, now, id)
    ensures
      var alerts := Snapshot.SnapshotOf(t, ids, statesOf);
      && w in alerts && Snapshot.Represents(w, id, t[id])
      && w.nwsID in t
      && forall area :: area in statesOf(t[w.nwsID]) ==> w in Shard(alerts, area)
  {
    w := Snapshot.SnapshotCovers(t, now, ids, statesOf, id);
    Snapshot.SnapshotShowsOnlyActive(t, now, ids, statesOf, w);
    forall area | area in w.states ensures w in Shard(Snapshot.SnapshotOf(t, ids, statesOf), area) {
      ShardHolds(Snapshot.SnapshotOf(t, ids, statesOf), area, w);
    }
  }

  lemma {:induction false} ShardHolds(alerts: seq<ActiveAlert>, area: string, w: ActiveAlert)
    ensures w in Shard(alerts, area) <==> w in alerts && area in w.states
  {
    if alerts == [] {
    } else {
      var n := |alerts| - 1;
      ShardHolds(alerts[..n], area, w);
      assert alerts == alerts[..n] + [alerts[n]];
    }
  }
}
