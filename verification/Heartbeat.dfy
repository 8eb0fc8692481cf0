/** What a heartbeat vouches for (internal/poller/poller.go, internal/poller/heartbeat.go). */
module Heartbeat {
  import opened Common
  import opened Config
  import opened AlertTable
  import opened AlertStore
  import opened Client

  datatype Mode = Both | Ingest | Publish

  predicate ShouldIngest(mode: Mode) {
    mode.Both? || mode.Ingest?
  }

  predicate ShouldPublish(mode: Mode) {
    mode.Both? || mode.Publish?
  }

  /** A heartbeat waits for each phase this mode runs, and for no other. */
  function ShouldHeartbeat(mode: Mode, alertsOK: bool, mergedPublishOK: bool): (fire: bool)
    ensures fire <==> (mode != Publish ==> alertsOK) && (mode != Ingest ==> mergedPublishOK)
    ensures fire <==> (ShouldIngest(mode) ==> alertsOK) && (ShouldPublish(mode) ==> mergedPublishOK)
  {
    match mode
    case Both => alertsOK && mergedPublishOK
    case Ingest => alertsOK
    case Publish => mergedPublishOK
  }

  /** How the batch upsert of one cycle ends; a panic unwinds to the cycle boundary. */
  datatype UpsertEnd = Stored | Errored | Panicked

  /** One cycle's view of the outside: its clock, the upstream's replies and the store. */
  datatype Cycle = Cycle(start: Time, deadline: Option<Time>, replies: seq<Reply>, upsert: UpsertEnd)

  predicate Playable(c: Cycle) {
    |c.replies| >= HTTP_RETRY_MAX_ATTEMPTS
  }

  function FetchOf(c: Cycle): Fetch
    requires Playable(c)
  {
    FetchAt(c.start, c.deadline, c.replies)
  }

  /** What the store meets in one cycle. */
  datatype Batch = Batch(receivedAt: Time, now: Time, txFaults: TxFaults, ctxDead: bool, rowFaults: RowFaults,
                         panics: bool)

  /** The end that a batch comes to, as the store leaves it; a panic leaves the table anywhere. */
  ghost predicate EndsAs(t: Table, alerts: seq<Alert>, b: Batch, end: UpsertEnd, after: Table) {
    if b.panics then end.Panicked?
    else exists r ::
      && BatchOutcome(t, alerts, b.receivedAt, b.now, b.txFaults, b.ctxDead, b.rowFaults, r, after)
      && end == if r.err.None? then Stored else Errored
  }

  /** Which phases a cycle came to. */
  datatype Phases = Phases(purged: bool, published: bool)

  class Poller {
    const client: AlertsClient
    const endpoint: string
    const store: Store
    var lastAlertsUpsertFailed: bool

    constructor (client: AlertsClient, endpoint: string, store: Store)
      ensures this.client == client && this.endpoint == endpoint && this.store == store && !lastAlertsUpsertFailed
    {
      this.client, this.endpoint, this.store := client, endpoint, store;
      lastAlertsUpsertFailed := false;
    }

    /** What the next cycle starts from. */
    function Memory(): (string, bool)
      reads this, client
    {
      (client.IfNoneMatch(endpoint), lastAlertsUpsertFailed)
    }

    /** `ok` is what gates this cycle's heartbeat; `c` is the cycle as it went, upsert included. */
    method PollAlerts(start: Time, deadline: Option<Time>, replies: seq<Reply>, b: Batch)
      returns (ok: bool, panicked: bool, ghost c: Cycle)
      requires |replies| >= HTTP_RETRY_MAX_ATTEMPTS
      modifies this, client, store
      ensures c == Cycle(start, deadline, replies, c.upsert)
      ensures
        var outcome := FetchOf(c).outcome;
        && (outcome.Fetched? ==> EndsAs(old(store.table), outcome.alerts, b, c.upsert, store.table))
        && (!outcome.Fetched? ==> store.table == old(store.table))
        && (panicked <==> outcome.Fetched? && b.panics)
      ensures
        var outcome := FetchOf(c).outcome;
        && (ok <==> (outcome.Unchanged? && !old(lastAlertsUpsertFailed)) || (outcome.Fetched? && c.upsert.Stored?))
        && client.IfNoneMatch(endpoint)
           == (if outcome.Fetched? && outcome.etag != "" then outcome.etag else old(client.IfNoneMatch(endpoint)))
        && (lastAlertsUpsertFailed <==>
              if outcome.Fetched? && !c.upsert.Panicked? then c.upsert.Errored? else old(lastAlertsUpsertFailed))
      ensures
        var step := PollStep(old(Memory()).0, old(Memory()).1, c);
        Memory() == (step.etag, step.lastFailed) && ok == step.ok
    {
      panicked, c := false, Cycle(start, deadline, replies, Stored);
      var fetch := client.FetchActiveAlerts(endpoint, start, deadline, replies);
      match fetch.outcome {
        case Unchanged => return !lastAlertsUpsertFailed, false, c;
        case Failed => return false, false, c;
        case Fetched(_, _) =>
      }
      if b.panics {
        store.table := *;
        return false, true, c.(upsert := Panicked);
      }
      var r := store.UpsertAlertsBatch(fetch.outcome.alerts, b.receivedAt, b.now, b.txFaults, b.ctxDead, b.rowFaults);
      if r.err.Some? {
        lastAlertsUpsertFailed := true;
        return false, false, c.(upsert := Errored);
      }
      lastAlertsUpsertFailed := false;
      return true, false, c;
    }

    /**
     One cycle: the phases this node's mode runs, and whether the heartbeat fires at its end; a panic
     unwinds past the purge, the publish phase and the heartbeat.
     */
    method Poll(mode: Mode, start: Time, deadline: Option<Time>, replies: seq<Reply>, b: Batch,
                purgeFault: Option<Error>, mergedPut: bool)
      returns (beat: bool, ran: Phases, ghost c: Cycle)
      requires |replies| >= HTTP_RETRY_MAX_ATTEMPTS
      modifies this, client, store
      ensures c == Cycle(start, deadline, replies, c.upsert)
      ensures
        var step := PollStep(old(Memory()).0, old(Memory()).1, c);
        && (beat <==> (mode != Publish ==> step.ok) && (mode != Ingest ==> mergedPut))
        && Memory() == (if ShouldIngest(mode) then (step.etag, step.lastFailed) else old(Memory()))
      ensures
        var outcome := FetchOf(c).outcome;
        var alertsOK := (outcome.Unchanged? && !old(lastAlertsUpsertFailed)) || (outcome.Fetched? && c.upsert.Stored?);
        beat <==> (mode != Publish ==> alertsOK) && (mode != Ingest ==> mergedPut)
      ensures
        var unwound := mode != Publish && FetchOf(c).outcome.Fetched? && b.panics;
        ran == Phases(mode != Publish && !unwound, mode != Ingest && !unwound)
      ensures !ShouldIngest(mode) ==> store.table == old(store.table)
      ensures ShouldIngest(mode) && !FetchOf(c).outcome.Fetched? ==>
        store.table == (if purgeFault.None? then Purge(old(store.table), b.now) else old(store.table))
      ensures ShouldIngest(mode) && FetchOf(c).outcome.Fetched? && !b.panics ==>
        exists stored ::
          && EndsAs(old(store.table), FetchOf(c).outcome.alerts, b, c.upsert, stored)
          && store.table == (if purgeFault.None? then Purge(stored, b.now) else stored)
    {
      c, ran := Cycle(start, deadline, replies, Stored), Phases(false, false);
      var alertsOK, mergedPublishOK, panicked := true, true, false;
      if ShouldIngest(mode) {
        alertsOK, panicked, c := PollAlerts(start, deadline, replies, b);
        if panicked {
          return false, ran, c;
        }
        ghost var stored := store.table;
        var _, _ := store.PurgeExpired(b.now, purgeFault);
        ran := ran.(purged := true);
      }
      if ShouldPublish(mode) {
        mergedPublishOK := mergedPut;
        ran := ran.(published := true);
      }
      beat := ShouldHeartbeat(mode, alertsOK, mergedPublishOK);
    }
  }

  // ----- runs of cycles -----

  datatype Step = Step(etag: string, lastFailed: bool, ok: bool)

  function PollStep(etag: string, lastFailed: bool, c: Cycle): Step
    requires Playable(c)
  {
    match FetchOf(c).outcome
    case Unchanged => Step(etag, lastFailed, !lastFailed)
    case Failed => Step(etag, lastFailed, false)
    case Fetched(newETag, _) =>
      Step(if newETag != "" then newETag else etag,
           if c.upsert.Panicked? then lastFailed else c.upsert.Errored?,
           c.upsert.Stored?)
  }

  /** The poller's memory. */
  datatype World = World(etag: string, lastFailed: bool)

  const BOOT := World("", false)

  predicate AllPlayable(cycles: seq<Cycle>) {
    forall i :: 0 <= i < |cycles| ==> Playable(cycles[i])
  }

  function Play(cycles: seq<Cycle>): World
    requires AllPlayable(cycles)
  {
    if cycles == [] then BOOT
    else
      var before := Play(cycles[..|cycles| - 1]);
      var step := PollStep(before.etag, before.lastFailed, cycles[|cycles| - 1]);
      World(step.etag, step.lastFailed)
  }

  /** Whether a heartbeat is supported when cycle `c` comes after these. */
  function Supports(cycles: seq<Cycle>, c: Cycle): bool
    requires AllPlayable(cycles) && Playable(c)
  {
    PollStep(Play(cycles).etag, Play(cycles).lastFailed, c).ok
  }

  /** A 304 answers only a request that carries the server's current entity tag. */
  predicate HonestServer(sent: string, c: Cycle) {
    forall i :: 0 <= i < |c.replies| && c.replies[i].answer.NotModified? ==>
      sent != "" && c.replies[i].answer.current == sent
  }

  /** A payload with an entity tag was decoded. */
  predicate Tagged(c: Cycle)
    requires Playable(c)
  {
    FetchOf(c).outcome.Fetched? && FetchOf(c).outcome.etag != ""
  }

  /** A payload was decoded, and its upsert came to an end. */
  predicate Settled(c: Cycle)
    requires Playable(c)
  {
    FetchOf(c).outcome.Fetched? && !c.upsert.Panicked?
  }

  /** The last cycle that decoded a tagged payload, or -1. */
  function LastTagged(cycles: seq<Cycle>): (t: int)
    requires AllPlayable(cycles)
    ensures -1 <= t < |cycles| && (t >= 0 ==> Tagged(cycles[t]))
    ensures forall i :: t < i < |cycles| ==> !Tagged(cycles[i])
  {
    if cycles == [] then -1
    else if Tagged(cycles[|cycles| - 1]) then |cycles| - 1
    else LastTagged(cycles[..|cycles| - 1])
  }

  /** The last cycle whose payload's upsert did not panic, or -1. */
  function LastSettled(cycles: seq<Cycle>): (s: int)
    requires AllPlayable(cycles)
    ensures -1 <= s < |cycles| && (s >= 0 ==> Settled(cycles[s]))
    ensures forall i :: s < i < |cycles| ==> !Settled(cycles[i])
  {
    if cycles == [] then -1
    else if Settled(cycles[|cycles| - 1]) then |cycles| - 1
    else LastSettled(cycles[..|cycles| - 1])
  }

  /** The memory of every run: the tag of the last tagged payload, and whether the last settled one failed. */
  lemma {:induction false} MemoryIsExact(cycles: seq<Cycle>)
    requires AllPlayable(cycles)
    ensures
      var w, t, s := Play(cycles), LastTagged(cycles), LastSettled(cycles);
      && w.etag == (if t < 0 then "" else FetchOf(cycles[t]).outcome.etag)
      && (w.lastFailed <==> s >= 0 && cycles[s].upsert.Errored?)
  {
    if cycles == [] {
    } else {
      MemoryIsExact(cycles[..|cycles| - 1]);
    }
  }

  lemma {:induction false} UnchangedMeansNotModified(w: Walk, deadline: Option<Time>, replies: seq<Reply>)
    requires |replies| >= HTTP_RETRY_MAX_ATTEMPTS && w.attempt < HTTP_RETRY_MAX_ATTEMPTS
    requires FetchFrom(w, deadline, replies).outcome.Unchanged?
    ensures exists i :: 0 <= i < |replies| && replies[i].answer.NotModified?
    decreases HTTP_RETRY_MAX_ATTEMPTS - w.attempt
  {
    var reply := replies[w.attempt];
    if !reply.answer.NotModified? {
      var next := Resume(Tried(w, reply), deadline, reply, VerdictOf(reply.answer).retryAfter);
      UnchangedMeansNotModified(next.value, deadline, replies);
    }
  }

  /** The payload whose tag a 304 confirms was stored. */
  predicate ConfirmedStored(cycles: seq<Cycle>)
    requires AllPlayable(cycles)
  {
    LastTagged(cycles) >= 0 && cycles[LastTagged(cycles)].upsert.Stored?
  }

  /**
   What a heartbeat on a 304 says, in every run. The server confirms the tag of the last tagged payload; the
   heartbeat goes by the last payload whose upsert did not panic. So it vouches for the confirmed payload
   exactly when that was stored or the other failed, and it does so both ways when they are the same one.
   */
  lemma HeartbeatVouchesForStore(cycles: seq<Cycle>, c: Cycle)
    requires AllPlayable(cycles) && Playable(c)
    requires HonestServer(Play(cycles).etag, c) && FetchOf(c).outcome.Unchanged?
    ensures
      var t, s, ok := LastTagged(cycles), LastSettled(cycles), Supports(cycles, c);
      && t >= 0 && Play(cycles).etag == FetchOf(cycles[t]).outcome.etag
      && (ok <==> s < 0 || cycles[s].upsert.Stored?)
      && ((ok ==> ConfirmedStored(cycles)) <==> ConfirmedStored(cycles) || (s >= 0 && cycles[s].upsert.Errored?))
      && (t == s ==> (ok <==> ConfirmedStored(cycles)))
      && forall mode, merged ::
           ShouldIngest(mode) && t == s && ShouldHeartbeat(mode, ok, merged) ==> ConfirmedStored(cycles)
  {
    MemoryIsExact(cycles);
    UnchangedMeansNotModified(Walk(0, c.start, [], 0), c.deadline, c.replies);
  }

  /** What supports a heartbeat, whatever the answer: a 304 over a settled store, or a payload that was stored. */
  lemma SupportsExactly(cycles: seq<Cycle>, c: Cycle)
    requires AllPlayable(cycles) && Playable(c)
    ensures
      var outcome, s := FetchOf(c).outcome, LastSettled(cycles);
      Supports(cycles, c) <==>
        || (outcome.Unchanged? && (s < 0 || cycles[s].upsert.Stored?))
        || (outcome.Fetched? && c.upsert.Stored?)
  {
    MemoryIsExact(cycles);
  }

  /** A failed fetch supports no heartbeat in any run, and the next cycle starts as if it had not been. */
  lemma FailedFetchIsSilent(cycles: seq<Cycle>, c: Cycle)
    requires AllPlayable(cycles) && Playable(c) && FetchOf(c).outcome.Failed?
    ensures !Supports(cycles, c)
    ensures AllPlayable(cycles + [c]) && Play(cycles + [c]) == Play(cycles)
  {
    var after := cycles + [c];
    assert after[..|cycles|] == cycles;
  }

  // ----- which histories vouch, whatever the store did -----

  /** A decoded payload with no alerts: its upsert has nothing to do and cannot fail. */
  predicate Empty(c: Cycle)
    requires Playable(c)
  {
    FetchOf(c).outcome.Fetched? && FetchOf(c).outcome.alerts == []
  }

  /** The same fetches and the same panics, with every other upsert stored or failed as `stores` says. */
  function Reassign(cycles: seq<Cycle>, stores: nat -> bool): (r: seq<Cycle>)
    requires AllPlayable(cycles)
    ensures AllPlayable(r)
  {
    seq(|cycles|, i requires 0 <= i < |cycles| =>
      cycles[i].(upsert :=
        if cycles[i].upsert.Panicked? then Panicked else if stores(i) || Empty(cycles[i]) then Stored else Errored))
  }

  lemma ReassignKeepsShape(cycles: seq<Cycle>, stores: nat -> bool)
    requires AllPlayable(cycles)
    ensures
      var r := Reassign(cycles, stores);
      LastTagged(r) == LastTagged(cycles) && LastSettled(r) == LastSettled(cycles) && Play(r).etag == Play(cycles).etag
  {
    var r := Reassign(cycles, stores);
    forall i | 0 <= i < |r|
      ensures FetchOf(r[i]) == FetchOf(cycles[i])
      ensures Tagged(r[i]) <==> Tagged(cycles[i])
      ensures Settled(r[i]) <==> Settled(cycles[i])
    {
    }
    hide *;
    hide Play;
    SameShapeSameMemory(cycles, r);
  }

  lemma SameShapeSameMemory(cycles: seq<Cycle>, r: seq<Cycle>)
    requires AllPlayable(cycles) && AllPlayable(r) && |r| == |cycles|
    requires forall i :: 0 <= i < |r| ==> FetchOf(r[i]) == FetchOf(cycles[i])
    requires forall i :: 0 <= i < |r| ==> (Tagged(r[i]) <==> Tagged(cycles[i]))
    requires forall i :: 0 <= i < |r| ==> (Settled(r[i]) <==> Settled(cycles[i]))
    ensures LastTagged(r) == LastTagged(cycles) && LastSettled(r) == LastSettled(cycles)
    ensures Play(r).etag == Play(cycles).etag
  {
    MemoryIsExact(cycles);
    MemoryIsExact(r);
    hide *;
  }

  /** The heartbeat on `c` is never a false one, whichever upserts were stored and whichever failed. */
  ghost predicate AlwaysVouches(cycles: seq<Cycle>, c: Cycle)
    requires AllPlayable(cycles) && Playable(c)
  {
    forall stores: nat -> bool ::
      Supports(Reassign(cycles, stores), c) ==> ConfirmedStored(Reassign(cycles, stores))
  }

  /**
   The exact condition on the history: a 304 heartbeat vouches whatever the store did, if and only if the last
   tagged payload is the last whose upsert did not panic (its own upsert did not, and no payload without a tag
   was settled after it), or has no alerts to store.
   */
  lemma VouchesExactly(cycles: seq<Cycle>, c: Cycle)
    requires AllPlayable(cycles) && Playable(c)
    requires HonestServer(Play(cycles).etag, c) && FetchOf(c).outcome.Unchanged?
    ensures
      var t := LastTagged(cycles);
      AlwaysVouches(cycles, c)
      <==> t == LastSettled(cycles) || (t >= 0 && Empty(cycles[t]) && !cycles[t].upsert.Panicked?)
  {
    var t, s := LastTagged(cycles), LastSettled(cycles);
    HeartbeatVouchesForStore(cycles, c);
    if t == s || (Empty(cycles[t]) && !cycles[t].upsert.Panicked?) {
      forall stores: nat -> bool
        ensures Supports(Reassign(cycles, stores), c) ==> ConfirmedStored(Reassign(cycles, stores))
      {
        ShapeVouches(cycles, c, stores);
      }
    } else {
      ShapeMisleads(cycles, c);
    }
  }

  lemma ShapeVouches(cycles: seq<Cycle>, c: Cycle, stores: nat -> bool)
    requires AllPlayable(cycles) && Playable(c)
    requires HonestServer(Play(cycles).etag, c) && FetchOf(c).outcome.Unchanged?
    requires
      var t := LastTagged(cycles);
      t == LastSettled(cycles) || (t >= 0 && Empty(cycles[t]) && !cycles[t].upsert.Panicked?)
    ensures Supports(Reassign(cycles, stores), c) ==> ConfirmedStored(Reassign(cycles, stores))
  {
    ReassignKeepsShape(cycles, stores);
    hide Play;
    hide PollStep;
    hide FetchOf;
    hide HonestServer;
    HeartbeatVouchesForStore(Reassign(cycles, stores), c);
  }

  lemma ShapeMisleads(cycles: seq<Cycle>, c: Cycle)
    requires AllPlayable(cycles) && Playable(c)
    requires HonestServer(Play(cycles).etag, c) && FetchOf(c).outcome.Unchanged?
    requires
      var t := LastTagged(cycles);
      t >= 0 && t != LastSettled(cycles) && (Empty(cycles[t]) ==> cycles[t].upsert.Panicked?)
    ensures !AlwaysVouches(cycles, c)
  {
    var stores := (i: nat) => i != LastTagged(cycles);
    FalseHeartbeat(cycles, c, stores);
    hide *;
    NotAlways(cycles, c, stores);
  }

  lemma NotAlways(cycles: seq<Cycle>, c: Cycle, stores: nat -> bool)
    requires AllPlayable(cycles) && Playable(c)
    requires Supports(Reassign(cycles, stores), c) && !ConfirmedStored(Reassign(cycles, stores))
    ensures !AlwaysVouches(cycles, c)
  {
    hide Supports;
    hide ConfirmedStored;
  }

  /** The last tagged payload fails, unless its upsert panicked, and everything settled after it is stored. */
  lemma FalseHeartbeat(cycles: seq<Cycle>, c: Cycle, stores: nat -> bool)
    requires AllPlayable(cycles) && Playable(c)
    requires HonestServer(Play(cycles).etag, c) && FetchOf(c).outcome.Unchanged?
    requires
      var t := LastTagged(cycles);
      t >= 0 && t != LastSettled(cycles) && (Empty(cycles[t]) ==> cycles[t].upsert.Panicked?)
    requires forall i: nat :: stores(i) <==> i != LastTagged(cycles)
    ensures Supports(Reassign(cycles, stores), c) && !ConfirmedStored(Reassign(cycles, stores))
  {
    hide PollStep;
    hide FetchOf;
    hide HonestServer;
    hide Play;
    hide Supports;
    ReassignKeepsShape(cycles, stores);
    HeartbeatVouchesForStore(Reassign(cycles, stores), c);
  }

  // ----- what is in the table then -----

  /**
   Down to the rows: a supported 304 heartbeat on such a history vouches for a row for every parseable message
   of the confirmed payload, as its own upsert left the table, exactly when that upsert took the clean path or
   every row that the per-row path rejected is there for another reason.
   */
  lemma HeartbeatVouchesForRows(cycles: seq<Cycle>, c: Cycle, before: Table, b: Batch, after: Table)
    returns (r: BatchResult)
    requires AllPlayable(cycles) && Playable(c)
    requires HonestServer(Play(cycles).etag, c) && FetchOf(c).outcome.Unchanged?
    requires LastTagged(cycles) == LastSettled(cycles) && Supports(cycles, c)
    requires
      var t := LastTagged(cycles);
      t >= 0 ==> EndsAs(before, FetchOf(cycles[t]).outcome.alerts, b, cycles[t].upsert, after)
    ensures
      var t := LastTagged(cycles);
      t >= 0
      && var alerts := FetchOf(cycles[t]).outcome.alerts;
         && BatchOutcome(before, alerts, b.receivedAt, b.now, b.txFaults, b.ctxDead, b.rowFaults, r, after)
         && r.err.None?
         && (HasRows(alerts, after)
             <==> (r.degraded ==> RejectedAreCovered(before, alerts, FailedRows(alerts, b.rowFaults))))
         && (r.inserted + r.skipped == |alerts| ==> HasRows(alerts, after))
  {
    HeartbeatVouchesForStore(cycles, c);
    var alerts := FetchOf(cycles[LastTagged(cycles)]).outcome.alerts;
    r :| BatchOutcome(before, alerts, b.receivedAt, b.now, b.txFaults, b.ctxDead, b.rowFaults, r, after) && r.err.None?;
    NilErrorExactly(before, alerts, b.receivedAt, b.now, b.txFaults, b.ctxDead, b.rowFaults, r, after);
  }

  // ----- two histories that do not vouch -----

  /** Two cycles: the last tagged and the last settled of them, read off. */
  lemma ShapeOfTwo(first: Cycle, second: Cycle)
    requires Playable(first) && Playable(second)
    ensures
      var cycles := [first, second];
      && LastTagged(cycles) == (if Tagged(second) then 1 else if Tagged(first) then 0 else -1)
      && LastSettled(cycles) == (if Settled(second) then 1 else if Settled(first) then 0 else -1)
  {
    var cycles := [first, second];
    hide Tagged;
    hide Settled;
    assert cycles[0] == first && cycles[1] == second;
  }

  /**
   A tagged payload whose upsert fails, then an untagged one that is stored: the next 304 supports a heartbeat,
   and the payload it confirms was not stored.
   */
  lemma UntaggedPayloadBreaksVouching(first: Cycle, second: Cycle, c: Cycle)
    requires Playable(first) && Playable(second) && Playable(c)
    requires Tagged(first) && !Empty(first) && first.upsert.Errored?
    requires Settled(second) && !Tagged(second) && second.upsert.Stored?
    requires FetchOf(c).outcome.Unchanged? && HonestServer(FetchOf(first).outcome.etag, c)
    ensures
      var cycles := [first, second];
      HonestServer(Play(cycles).etag, c) && Supports(cycles, c) && !ConfirmedStored(cycles) && !AlwaysVouches(cycles, c)
  {
    var cycles := [first, second];
    hide Play;
    hide FetchOf;
    hide PollStep;
    hide Reassign;
    hide AllPlayable;
    assert AllPlayable(cycles) && cycles[0] == first && cycles[1] == second by {
      TwoArePlayable(first, second);
    }
    ShapeOfTwo(first, second);
    MemoryIsExact(cycles);
    HeartbeatVouchesForStore(cycles, c);
    VouchesExactly(cycles, c);
    assert !ConfirmedStored(cycles);
  }

  lemma TwoArePlayable(first: Cycle, second: Cycle)
    requires Playable(first) && Playable(second)
    ensures AllPlayable([first, second]) && [first, second][0] == first && [first, second][1] == second
  {}

  /** A panic inside the upsert of the first payload leaves its tag cached and the failure unrecorded. */
  lemma PanicBreaksVouching(only: Cycle, c: Cycle)
    requires Playable(only) && Playable(c) && Tagged(only) && only.upsert.Panicked?
    requires FetchOf(c).outcome.Unchanged? && HonestServer(FetchOf(only).outcome.etag, c)
    ensures
      var cycles := [only];
      HonestServer(Play(cycles).etag, c) && Supports(cycles, c) && !ConfirmedStored(cycles) && !AlwaysVouches(cycles, c)
  {
    var cycles := [only];
    ShapeOfOne(only);
    hide Play;
    hide FetchOf;
    hide PollStep;
    hide Reassign;
    hide LastTagged;
    hide LastSettled;
    MemoryIsExact(cycles);
    HeartbeatVouchesForStore(cycles, c);
    VouchesExactly(cycles, c);
    assert !ConfirmedStored(cycles);
  }

  lemma ShapeOfOne(only: Cycle)
    requires Playable(only) && Tagged(only) && only.upsert.Panicked?
    ensures AllPlayable([only]) && [only][0] == only && LastTagged([only]) == 0 && LastSettled([only]) == -1
  {}

  function Answering(answer: Answer, upsert: UpsertEnd): Cycle {
    var reply := Reply(0, answer, 0, false);
    Cycle(0, None, [reply, reply, reply], upsert)
  }

  lemma AnsweringFetches(answer: Answer, upsert: UpsertEnd)
    requires answer.Success? || answer.NotModified?
    ensures Playable(Answering(answer, upsert))
    ensures FetchOf(Answering(answer, upsert)).outcome == VerdictOf(answer).outcome
  {}

  /** Such histories happen: with any one alert, and replies the client takes as they come. */
  lemma BothHappen(a: Alert)
    ensures
      var first, second := Answering(Success("a", Some([a])), Errored), Answering(Success("", Some([])), Stored);
      var only, c := Answering(Success("a", Some([a])), Panicked), Answering(NotModified("a"), Stored);
      && Playable(first) && Playable(second) && Playable(only) && Playable(c)
      && Tagged(first) && !Empty(first) && Settled(second) && !Tagged(second) && Tagged(only)
      && FetchOf(c).outcome.Unchanged? && HonestServer(FetchOf(first).outcome.etag, c)
      && HonestServer(FetchOf(only).outcome.etag, c)
  {
    AnsweringFetches(Success("a", Some([a])), Errored);
    AnsweringFetches(Success("", Some([])), Stored);
    AnsweringFetches(Success("a", Some([a])), Panicked);
    AnsweringFetches(NotModified("a"), Stored);
    hide FetchOf;
  }
}
