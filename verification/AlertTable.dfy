/**
 The `weather_events` table and the SQL statements that change it, as functions
 from a table to a table (internal/store/queries.go).
 */
module AlertTable {
  import opened Common

  /** The columns that `ON CONFLICT ... DO UPDATE` refreshes, apart from type and expiry. */
  datatype Content = Content(
    severity: string,
    headline: string,
    description: string,
    instruction: string,
    areaDesc: string,
    geometry: Option<string>,
    parameters: map<string, seq<string>>,
    same: seq<string>)

  /** One decoded NWS message; `effective` and `expires` are None when their text is not RFC 3339. */
  datatype Alert = Alert(
    id: string,
    event: string,
    content: Content,
    sender: string,
    effective: Option<Time>,
    expires: Option<Time>,
    references: seq<string>)

  datatype Row = Row(
    eventType: string,
    content: Content,
    sender: string,
    effectiveAt: Time,
    expiresAt: Time,
    ingestedAt: Time,
    updatedAt: Time,
    retiredAt: Option<Time>)

  type Table = map<string, Row>

  function RowOf(t: Table, id: string): Option<Row> {
    if id in t then Some(t[id]) else None
  }

  // ----- parseAlertTimes and the upsert -----

  datatype AlertTimes = AlertTimes(effectiveAt: Time, expiresAt: Time)

  function ParseAlertTimes(a: Alert, receivedAt: Time): Option<AlertTimes> {
    match a.expires
    case None => None
    case Some(expiresAt) =>
      Some(AlertTimes(if a.effective.Some? then a.effective.value else receivedAt, expiresAt))
  }

  predicate Parseable(a: Alert) {
    a.expires.Some?
  }

  /** The row an upsert leaves: a fresh row, or the old one with its refreshed columns. */
  function UpsertedRow(was: Option<Row>, a: Alert, times: AlertTimes, now: Time): Row {
    match was
    case None => Row(a.event, a.content, a.sender, times.effectiveAt, times.expiresAt, now, now, None)
    case Some(row) =>
      row.(eventType := a.event, content := a.content, expiresAt := times.expiresAt, updatedAt := now)
  }

  function Upsert(t: Table, a: Alert, times: AlertTimes, now: Time): Table {
    t[a.id := UpsertedRow(RowOf(t, a.id), a, times, now)]
  }

  /** One alert through the write path: skipped when its expiry does not parse. */
  function Land(t: Table, a: Alert, receivedAt: Time, now: Time): Table {
    match ParseAlertTimes(a, receivedAt)
    case None => t
    case Some(times) => Upsert(t, a, times, now)
  }

  function LandAll(t: Table, batch: seq<Alert>, receivedAt: Time, now: Time): Table {
    if batch == [] then t
    else Land(LandAll(t, batch[..|batch| - 1], receivedAt, now), batch[|batch| - 1], receivedAt, now)
  }

  /** The alerts of a batch that are queued, in order. */
  function Queued(batch: seq<Alert>): seq<Alert> {
    if batch == [] then []
    else
      var rest := Queued(batch[..|batch| - 1]);
      if Parseable(batch[|batch| - 1]) then rest + [batch[|batch| - 1]] else rest
  }

  // ----- retirement -----

  /** `SET retired_at = NOW()` on these rows. */
  function RetireRows(t: Table, ids: set<string>, now: Time): Table {
    map id | id in t :: if id in ids then t[id].(retiredAt := Some(now)) else t[id]
  }

  /** The rows that retireByReferenceSQL affects. */
  function Matching(t: Table, ids: seq<string>, event: string): set<string> {
    set id | id in t && id in ids && t[id].retiredAt.None? && t[id].eventType == event
  }

  /** retireByReferenceSQL: one statement, for one event type. */
  function RetireByReference(t: Table, ids: seq<string>, event: string, now: Time): Table {
    RetireRows(t, Matching(t, ids, event), now)
  }

  /** Some alert of this event type in the batch names `id` as a prior message. */
  predicate Superseded(batch: seq<Alert>, id: string, event: string) {
    id != "" && exists a :: a in batch && a.event == event && id in a.references
  }

  /** The unretired rows that the batch supersedes, over all event types. */
  function SupersededRows(t: Table, batch: seq<Alert>): set<string> {
    set id | id in t && t[id].retiredAt.None? && Superseded(batch, id, t[id].eventType)
  }

  /** The committed transaction: every queued upsert, then the retirement. */
  function CommitBatch(t: Table, batch: seq<Alert>, receivedAt: Time, now: Time): Table {
    var landed := LandAll(t, batch, receivedAt, now);
    RetireRows(landed, SupersededRows(landed, Queued(batch)), now)
  }

  // ----- purge and snapshot -----

  function Purge(t: Table, now: Time): Table {
    map id | id in t && !(t[id].expiresAt < now) :: t[id]
  }

  /** activeAlertsSQL's WHERE clause. */
  predicate Active(t: Table, now: Time, id: string) {
    id in t && t[id].expiresAt > now && t[id].retiredAt.None?
  }

  // ----- what a batch does, row by row -----

  lemma {:induction false} QueuedMembers(batch: seq<Alert>)
    ensures forall a :: a in Queued(batch) <==> a in batch && Parseable(a)
    ensures |Queued(batch)| <= |batch|
  {
    if batch == [] {
    } else {
      QueuedMembers(batch[..|batch| - 1]);
      assert batch == batch[..|batch| - 1] + [batch[|batch| - 1]];
    }
  }

  /** `at` lists the positions of the alerts with a parseable expiry, in order. */
  ghost predicate QueuedPositions(batch: seq<Alert>, at: seq<nat>) {
    && (forall i: nat :: i < |batch| ==> (i in at <==> Parseable(batch[i])))
    && (forall k :: 0 <= k < |at| ==> at[k] < |batch|)
    && (forall k, m :: 0 <= k < m < |at| ==> at[k] < at[m])
  }

  /** The queue holds exactly those alerts, in the order of the batch and as often as it does. */
  lemma {:induction false} QueuedInOrder(batch: seq<Alert>) returns (at: seq<nat>)
    ensures QueuedPositions(batch, at) && |Queued(batch)| == |at|
    ensures forall k :: 0 <= k < |at| ==> Queued(batch)[k] == batch[at[k]]
  {
    if batch == [] {
      at := [];
    } else {
      var n := |batch| - 1;
      at := QueuedInOrder(batch[..n]);
      assert forall i: nat :: i < n ==> batch[..n][i] == batch[i];
      if Parseable(batch[n]) {
        at := at + [n];
      }
    }
  }

  /** Two alerts of the batch with one id are the same message. */
  predicate Consistent(batch: seq<Alert>) {
    forall a, b :: a in batch && b in batch && a.id == b.id ==> a == b
  }

  /** The last queued alert with this id: the one whose columns stand in the end. */
  function LastFor(batch: seq<Alert>, id: string): Option<Alert> {
    if batch == [] then None
    else
      var a := batch[|batch| - 1];
      if Parseable(a) && a.id == id then Some(a) else LastFor(batch[..|batch| - 1], id)
  }

  lemma {:induction false} LastForMembers(batch: seq<Alert>, id: string)
    ensures LastFor(batch, id).None? <==> forall a :: a in batch && Parseable(a) ==> a.id != id
    ensures LastFor(batch, id).Some? ==>
      var a := LastFor(batch, id).value; a in batch && Parseable(a) && a.id == id
  {
    if batch == [] {
    } else {
      LastForMembers(batch[..|batch| - 1], id);
      assert batch == batch[..|batch| - 1] + [batch[|batch| - 1]];
    }
  }

  /** The first queued alert with this id: the one that inserts the row when there is none. */
  function FirstFor(batch: seq<Alert>, id: string): Option<Alert> {
    if batch == [] then None
    else
      var first, a := FirstFor(batch[..|batch| - 1], id), batch[|batch| - 1];
      if first.None? && Parseable(a) && a.id == id then Some(a) else first
  }

  /** Whether the alert at `i` is queued under this id. */
  predicate QueuedUnder(batch: seq<Alert>, i: nat, id: string) {
    i < |batch| && batch[i].expires.Some? && batch[i].id == id
  }

  lemma {:induction false} NoneQueuedUnder(batch: seq<Alert>, id: string)
    ensures LastFor(batch, id).None? <==> FirstFor(batch, id).None?
    ensures LastFor(batch, id).None? <==> forall i: nat :: !QueuedUnder(batch, i, id)
  {
    if batch == [] {
    } else {
      var n := |batch| - 1;
      NoneQueuedUnder(batch[..n], id);
      assert forall i: nat :: i < n ==> (QueuedUnder(batch, i, id) <==> QueuedUnder(batch[..n], i, id));
      assert QueuedUnder(batch, n, id) <==> Parseable(batch[n]) && batch[n].id == id;
    }
  }

  /** Which alerts these are, by their positions. */
  lemma {:induction false} FirstAndLast(batch: seq<Alert>, id: string) returns (first: nat, last: nat)
    requires LastFor(batch, id).Some?
    ensures QueuedUnder(batch, first, id) && FirstFor(batch, id) == Some(batch[first])
    ensures QueuedUnder(batch, last, id) && LastFor(batch, id) == Some(batch[last])
    ensures forall i: nat :: QueuedUnder(batch, i, id) ==> first <= i <= last
  {
    var n := |batch| - 1;
    NoneQueuedUnder(batch[..n], id);
    assert forall i: nat :: i < n ==> (QueuedUnder(batch, i, id) <==> QueuedUnder(batch[..n], i, id));
    if LastFor(batch[..n], id).None? {
      return n, n;
    }
    first, last := FirstAndLast(batch[..n], id);
    if Parseable(batch[n]) && batch[n].id == id {
      last := n;
    }
  }

  /**
   What stands in a row after any list of upserts, column by column: an old row has the refreshed columns of the
   last alert with its id and keeps the others; a new one takes sender and effective time from the first.
   */
  lemma {:induction false} LandAllRow(t: Table, batch: seq<Alert>, receivedAt: Time, now: Time, id: string)
    ensures
      var row := RowOf(LandAll(t, batch, receivedAt, now), id);
      match LastFor(batch, id)
      case None => row == RowOf(t, id)
      case Some(a) =>
        && a.expires.Some? && FirstFor(batch, id).Some?
        && var first := FirstFor(batch, id).value;
           && (id in t ==> row == Some(t[id].(
                 eventType := a.event, content := a.content, expiresAt := a.expires.value, updatedAt := now)))
           && (id !in t ==> row == Some(Row(
                 a.event, a.content, first.sender,
                 if first.effective.Some? then first.effective.value else receivedAt,
                 a.expires.value, now, now, None)))
  {
    if batch == [] {
    } else {
      LandAllRow(t, batch[..|batch| - 1], receivedAt, now, id);
      NoneQueuedUnder(batch[..|batch| - 1], id);
    }
  }

  /** In a batch of consistent ids a new row is exactly its message. */
  lemma LandAllFresh(t: Table, batch: seq<Alert>, receivedAt: Time, now: Time, a: Alert)
    requires Consistent(batch) && a in batch && Parseable(a) && a.id !in t
    ensures RowOf(LandAll(t, batch, receivedAt, now), a.id)
         == Some(Row(a.event, a.content, a.sender, if a.effective.Some? then a.effective.value else receivedAt,
                     a.expires.value, now, now, None))
  {
    LandAllRow(t, batch, receivedAt, now, a.id);
    LastForMembers(batch, a.id);
    var first, last := FirstAndLast(batch, a.id);
    assert batch[first] == a && batch[last] == a;
  }

  /** Some queued message of this type names `id` as a prior message. */
  predicate NamedBy(batch: seq<Alert>, id: string, event: string) {
    id != "" && exists b :: b in batch && b.expires.Some? && b.event == event && id in b.references
  }

  /**
   A whole committed batch, row by row: the columns of the upserts, and a mark that is the old one, or is set now
   exactly when a queued message of the row's type names the id.
   */
  lemma CommitRowExactly(t: Table, batch: seq<Alert>, receivedAt: Time, now: Time, id: string)
    ensures
      var landed := RowOf(LandAll(t, batch, receivedAt, now), id);
      var row := RowOf(CommitBatch(t, batch, receivedAt, now), id);
      && (row.None? <==> id !in t && forall i: nat :: !QueuedUnder(batch, i, id))
      && (row.Some? <==> landed.Some?)
      && (row.Some? ==>
            && row.value.(retiredAt := None) == landed.value.(retiredAt := None)
            && row.value.retiredAt ==
                 if id in t && t[id].retiredAt.Some? then t[id].retiredAt
                 else if NamedBy(batch, id, row.value.eventType) then Some(now)
                 else None)
  {
    LandAllRow(t, batch, receivedAt, now, id);
    NoneQueuedUnder(batch, id);
    QueuedMembers(batch);
  }

  /** A batch of consistent ids is order-insensitive: only the set of messages matters. */
  lemma BatchOrderInsensitive(t: Table, b1: seq<Alert>, b2: seq<Alert>, receivedAt: Time, now: Time)
    requires Consistent(b1) && multiset(b1) == multiset(b2)
    ensures CommitBatch(t, b1, receivedAt, now) == CommitBatch(t, b2, receivedAt, now)
  {
    assert forall a :: a in b1 <==> a in multiset(b1);
    assert forall a :: a in b2 <==> a in multiset(b2);
    var l1, l2 := LandAll(t, b1, receivedAt, now), LandAll(t, b2, receivedAt, now);
    forall id ensures RowOf(l1, id) == RowOf(l2, id) {
      LandAllRow(t, b1, receivedAt, now, id);
      LandAllRow(t, b2, receivedAt, now, id);
      LastForMembers(b1, id);
      LastForMembers(b2, id);
      if LastFor(b1, id).Some? {
        var a := LastFor(b1, id).value;
        if id !in t {
          LandAllFresh(t, b1, receivedAt, now, a);
          LandAllFresh(t, b2, receivedAt, now, a);
        }
      }
    }
    TablesEqual(l1, l2);
    QueuedMembers(b1);
    QueuedMembers(b2);
    assert SupersededRows(l1, Queued(b1)) == SupersededRows(l2, Queued(b2));
  }

  lemma TablesEqual(t1: Table, t2: Table)
    requires forall id :: RowOf(t1, id) == RowOf(t2, id)
    ensures t1 == t2
  {
    assert forall id :: id in t1 <==> RowOf(t1, id).Some?;
    assert forall id :: id in t2 <==> RowOf(t2, id).Some?;
    forall id | id in t1 ensures t1[id] == t2[id] {
      assert RowOf(t1, id) == RowOf(t2, id);
    }
  }

  /** Within one batch X is retired by Y whichever of the two comes first. */
  lemma RetiredEvenWhenListedAfter(t: Table, batch: seq<Alert>, x: Alert, y: Alert, receivedAt: Time, now: Time)
    requires Consistent(batch) && x in batch && y in batch && Parseable(x) && Parseable(y)
    requires x.id in y.references && x.id != "" && x.event == y.event
    ensures
      var after := CommitBatch(t, batch, receivedAt, now);
      x.id in after && after[x.id].retiredAt.Some?
  {
    LastForMembers(batch, x.id);
    LandAllRow(t, batch, receivedAt, now, x.id);
    QueuedMembers(batch);
  }

  /** Equal rows up to the two columns a replay may stamp again. */
  predicate SameUpToStamps(r1: Row, r2: Row) {
    && r1.(updatedAt := 0, retiredAt := None) == r2.(updatedAt := 0, retiredAt := None)
    && (r1.retiredAt.Some? <==> r2.retiredAt.Some?)
  }

  /** Landing the batch a second time, on rows of which some were retired meanwhile. */
  lemma RelandRow(t: Table, batch: seq<Alert>, done: set<string>,
                  received1: Time, now1: Time, received2: Time, now2: Time, id: string)
    ensures
      var landed := LandAll(t, batch, received1, now1);
      var partial := RetireRows(landed, done, now1);
      RowOf(LandAll(partial, batch, received2, now2), id)
      == if id !in landed then None
         else if LastFor(batch, id).Some? then Some(partial[id].(updatedAt := now2))
         else Some(partial[id])
  {
    var landed := LandAll(t, batch, received1, now1);
    LandAllRow(t, batch, received1, now1, id);
    LandAllRow(RetireRows(landed, done, now1), batch, received2, now2, id);
    assert id in landed <==> RowOf(landed, id).Some?;
  }

  /** The second retirement marks exactly the rows the first one left. */
  lemma RelandSuperseded(t: Table, batch: seq<Alert>, done: set<string>,
                         received1: Time, now1: Time, received2: Time, now2: Time)
    requires done <= SupersededRows(LandAll(t, batch, received1, now1), Queued(batch))
    ensures
      var landed := LandAll(t, batch, received1, now1);
      var landed2 := LandAll(RetireRows(landed, done, now1), batch, received2, now2);
      && landed2.Keys == landed.Keys
      && SupersededRows(landed2, Queued(batch)) == SupersededRows(landed, Queued(batch)) - done
  {
    var landed := LandAll(t, batch, received1, now1);
    var landed2 := LandAll(RetireRows(landed, done, now1), batch, received2, now2);
    forall id
      ensures id in landed2 <==> id in landed
      ensures id in landed ==> landed2[id].eventType == landed[id].eventType
      ensures id in landed ==> (landed2[id].retiredAt.None? <==> landed[id].retiredAt.None? && id !in done)
    {
      RelandRow(t, batch, done, received1, now1, received2, now2, id);
      assert id in landed2 <==> RowOf(landed2, id).Some?;
    }
  }

  /**
   Replaying a batch after its rows landed but only the rows in `done` were retired (a degraded
   cycle whose trailing retire failed part-way) reaches the table of one clean transaction, whatever
   the clocks of the replay; a row already retired keeps its mark.
   */
  lemma ReplayConverges(t: Table, batch: seq<Alert>, done: set<string>,
                        received1: Time, now1: Time, received2: Time, now2: Time)
    requires done <= SupersededRows(LandAll(t, batch, received1, now1), Queued(batch))
    ensures
      var partial := RetireRows(LandAll(t, batch, received1, now1), done, now1);
      var clean := CommitBatch(t, batch, received1, now1);
      var replayed := CommitBatch(partial, batch, received2, now2);
      && replayed.Keys == clean.Keys
      && forall id :: id in clean ==>
           && SameUpToStamps(replayed[id], clean[id])
           && (replayed[id].updatedAt == if LastFor(batch, id).Some? then now2 else clean[id].updatedAt)
           && (replayed[id].retiredAt == clean[id].retiredAt
               || (id !in done && replayed[id].retiredAt == Some(now2)))
  {
    var landed := LandAll(t, batch, received1, now1);
    var partial, clean := RetireRows(landed, done, now1), CommitBatch(t, batch, received1, now1);
    var landed2, replayed := LandAll(partial, batch, received2, now2), CommitBatch(partial, batch, received2, now2);
    var all := SupersededRows(landed, Queued(batch));
    RelandSuperseded(t, batch, done, received1, now1, received2, now2);
    RetireRowsAt(landed, done, now1);
    RetireRowsAt(landed, all, now1);
    RetireRowsAt(landed2, all - done, now2);
    hide LandAll;
    hide Queued;
    hide LastFor;
    hide SupersededRows;
    assert clean == RetireRows(landed, all, now1) && replayed == RetireRows(landed2, all - done, now2);
    hide RetireRows;
    hide CommitBatch;
    forall id | id in clean
      ensures SameUpToStamps(replayed[id], clean[id])
      ensures replayed[id].updatedAt == if LastFor(batch, id).Some? then now2 else clean[id].updatedAt
      ensures replayed[id].retiredAt == clean[id].retiredAt || (id !in done && replayed[id].retiredAt == Some(now2))
    {
      RelandRow(t, batch, done, received1, now1, received2, now2, id);
    }
  }

  lemma RetireRowsAt(t: Table, ids: set<string>, now: Time)
    ensures RetireRows(t, ids, now).Keys == t.Keys
    ensures forall id :: id in t ==>
      RetireRows(t, ids, now)[id] == if id in ids then t[id].(retiredAt := Some(now)) else t[id]
  {}

  /** The same batch again, at any clock, stamps `updated_at` and changes nothing else. */
  lemma ReplayChangesOnlyUpdatedAt(t: Table, batch: seq<Alert>,
                                   received1: Time, now1: Time, received2: Time, now2: Time)
    ensures
      var once := CommitBatch(t, batch, received1, now1);
      var twice := CommitBatch(once, batch, received2, now2);
      && twice.Keys == once.Keys
      && (forall id :: id in once ==> twice[id] == once[id].(updatedAt := twice[id].updatedAt))
      && (now1 == now2 ==> twice == once)
  {
    var landed := LandAll(t, batch, received1, now1);
    var all := SupersededRows(landed, Queued(batch));
    ReplayConverges(t, batch, all, received1, now1, received2, now2);
    var once := CommitBatch(t, batch, received1, now1);
    var twice := CommitBatch(once, batch, received2, now2);
    forall id | id in once
      ensures twice[id] == once[id].(updatedAt := twice[id].updatedAt)
      ensures now1 == now2 ==> twice[id].updatedAt == once[id].updatedAt
    {
      LandAllRow(t, batch, received1, now1, id);
      LandAllRow(once, batch, received2, now2, id);
      assert id in landed;
    }
  }

  /** Y names X as a prior message, and the type gate lets the retirement through. */
  predicate Supersedes(y: Alert, x: Alert) {
    x.id != "" && x.id in y.references && y.event == x.event
  }

  /** A message that names itself is retired by its own batch: references must point to earlier messages. */
  lemma SelfReferenceRetiresItself(t: Table, a: Alert, receivedAt: Time, now: Time)
    requires Parseable(a) && Supersedes(a, a)
    ensures
      var after := CommitBatch(t, [a], receivedAt, now);
      a.id in after && after[a.id].retiredAt.Some?
  {
    RetiredEvenWhenListedAfter(t, [a], a, a, receivedAt, now);
  }

  /** What the batch of one message does to the row of one id. */
  function RowAfter(row: Option<Row>, id: string, a: Alert, receivedAt: Time, now: Time): Option<Row>
    requires Parseable(a)
  {
    var landed := if id == a.id then Some(UpsertedRow(row, a, ParseAlertTimes(a, receivedAt).value, now)) else row;
    if landed.Some? && landed.value.retiredAt.None? && id != "" && landed.value.eventType == a.event
       && id in a.references
    then Some(landed.value.(retiredAt := Some(now)))
    else landed
  }

  lemma CommitOne(t: Table, a: Alert, receivedAt: Time, now: Time)
    requires Parseable(a)
    ensures forall id ::
      RowOf(CommitBatch(t, [a], receivedAt, now), id) == RowAfter(RowOf(t, id), id, a, receivedAt, now)
  {
    var landed := Land(t, a, receivedAt, now);
    assert LandAll(t, [a], receivedAt, now) == landed;
    assert Queued([a]) == [a];
    forall id | id in landed
      ensures Superseded([a], id, landed[id].eventType)
        <==> id != "" && landed[id].eventType == a.event && id in a.references
    {
      assert a in [a];
    }
  }

  lemma RowsOfTwo(t: Table, x: Alert, y: Alert, receivedAt: Time, now: Time)
    requires Parseable(x) && Parseable(y)
    ensures forall id ::
      RowOf(CommitBatch(CommitBatch(t, [x], receivedAt, now), [y], receivedAt, now), id)
      == RowAfter(RowAfter(RowOf(t, id), id, x, receivedAt, now), id, y, receivedAt, now)
  {
    CommitOne(t, x, receivedAt, now);
    CommitOne(CommitBatch(t, [x], receivedAt, now), y, receivedAt, now);
  }

  /** Y supersedes X, and X does not already retire itself. */
  predicate Overtakes(y: Alert, x: Alert) {
    Supersedes(y, x) && !Supersedes(x, x)
  }

  /**
   Two new messages in two batches: the order in which the batches commit shows in the table
   exactly when one of the messages overtakes the other, and then the one that arrives late is
   left unretired (the accepted out-of-order leak).
   */
  lemma CrossBatchOrderMattersExactly(t: Table, x: Alert, y: Alert, receivedAt: Time, now: Time)
    requires Parseable(x) && Parseable(y) && x.id != y.id && x.id !in t && y.id !in t
    ensures
      var xy := CommitBatch(CommitBatch(t, [x], receivedAt, now), [y], receivedAt, now);
      var yx := CommitBatch(CommitBatch(t, [y], receivedAt, now), [x], receivedAt, now);
      && (xy == yx <==> !Overtakes(y, x) && !Overtakes(x, y))
      && (Overtakes(y, x) ==> x.id in xy && x.id in yx && xy[x.id].retiredAt.Some? && yx[x.id].retiredAt.None?)
  {
    var tx, ty := CommitBatch(t, [x], receivedAt, now), CommitBatch(t, [y], receivedAt, now);
    var xy, yx := CommitBatch(tx, [y], receivedAt, now), CommitBatch(ty, [x], receivedAt, now);
    hide CommitBatch;
    RowsOfTwo(t, x, y, receivedAt, now);
    RowsOfTwo(t, y, x, receivedAt, now);
    assert RowOf(xy, x.id) == RowAfter(RowAfter(None, x.id, x, receivedAt, now), x.id, y, receivedAt, now);
    assert RowOf(yx, x.id) == RowAfter(None, x.id, x, receivedAt, now);
    assert RowOf(xy, y.id) == RowAfter(None, y.id, y, receivedAt, now);
    assert RowOf(yx, y.id) == RowAfter(RowAfter(None, y.id, y, receivedAt, now), y.id, x, receivedAt, now);
    if !Overtakes(y, x) && !Overtakes(x, y) {
      forall id ensures RowOf(xy, id) == RowOf(yx, id) {
      }
      TablesEqual(xy, yx);
    }
  }

  // ----- two whole batches in either order -----

  /** The row a consistent batch lands on. */
  function LandedRow(row: Option<Row>, id: string, batch: seq<Alert>, receivedAt: Time, now: Time): Option<Row> {
    match LastFor(batch, id)
    case None => row
    case Some(a) =>
      var times := ParseAlertTimes(a, receivedAt);
      if times.None? then row else Some(UpsertedRow(row, a, times.value, now))
  }

  /** What a committed batch does to the row of one id. */
  function BatchRow(row: Option<Row>, id: string, batch: seq<Alert>, receivedAt: Time, now: Time): Option<Row> {
    var landed := LandedRow(row, id, batch, receivedAt, now);
    if landed.Some? && landed.value.retiredAt.None? && Superseded(Queued(batch), id, landed.value.eventType)
    then Some(landed.value.(retiredAt := Some(now)))
    else landed
  }

  lemma CommitRow(t: Table, batch: seq<Alert>, receivedAt: Time, now: Time, id: string)
    requires Consistent(batch)
    ensures RowOf(CommitBatch(t, batch, receivedAt, now), id) == BatchRow(RowOf(t, id), id, batch, receivedAt, now)
  {
    LandAllRow(t, batch, receivedAt, now, id);
    LastForMembers(batch, id);
    if LastFor(batch, id).Some? && id !in t {
      LandAllFresh(t, batch, receivedAt, now, LastFor(batch, id).value);
    }
    assert RowOf(LandAll(t, batch, receivedAt, now), id) == LandedRow(RowOf(t, id), id, batch, receivedAt, now);
  }

  /**
   The message of this id is in `own` alone, is not retired before or by its own batch, and `other` retires it
   only in one of the two orders: as the message it is, or as the row that stood there before it.
   */
  predicate Late(row: Option<Row>, id: string, own: seq<Alert>, other: seq<Alert>) {
    && LastFor(own, id).Some? && LastFor(other, id).None?
    && (row.None? || row.value.retiredAt.None?)
    && !Superseded(Queued(own), id, LastFor(own, id).value.event)
    && (Superseded(Queued(other), id, LastFor(own, id).value.event)
        != (row.Some? && Superseded(Queued(other), id, row.value.eventType)))
  }

  ghost predicate NobodyIsLate(t: Table, b1: seq<Alert>, b2: seq<Alert>) {
    forall id :: !Late(RowOf(t, id), id, b1, b2) && !Late(RowOf(t, id), id, b2, b1)
  }

  predicate MarkedAlike(r1: Option<Row>, r2: Option<Row>) {
    && (r1.Some? <==> r2.Some?)
    && (r1.Some? && r2.Some? ==> (r1.value.retiredAt.Some? <==> r2.value.retiredAt.Some?))
  }

  /** An id names one message in both batches, so where both hold it they land the same columns. */
  predicate Agree(b1: seq<Alert>, b2: seq<Alert>, id: string) {
    && (LastFor(b1, id).Some? ==> Parseable(LastFor(b1, id).value))
    && (LastFor(b2, id).Some? ==> Parseable(LastFor(b2, id).value))
    && (LastFor(b1, id).Some? && LastFor(b2, id).Some? ==> LastFor(b1, id) == LastFor(b2, id))
  }

  lemma ConsistentBatchesAgree(b1: seq<Alert>, b2: seq<Alert>, id: string)
    requires Consistent(b1 + b2)
    ensures Consistent(b1) && Consistent(b2) && Agree(b1, b2, id)
  {
    LastForMembers(b1, id);
    LastForMembers(b2, id);
    assert forall a :: a in b1 || a in b2 ==> a in b1 + b2;
  }

  lemma RowCommutesExactly(row: Option<Row>, id: string, b1: seq<Alert>, b2: seq<Alert>,
                           received1: Time, now1: Time, received2: Time, now2: Time)
    requires Agree(b1, b2, id)
    ensures
      var r12 := BatchRow(BatchRow(row, id, b1, received1, now1), id, b2, received2, now2);
      var r21 := BatchRow(BatchRow(row, id, b2, received1, now1), id, b1, received2, now2);
      && (MarkedAlike(r12, r21) <==> !Late(row, id, b1, b2) && !Late(row, id, b2, b1))
      && (received1 == received2 && now1 == now2 ==> (r12 == r21 <==> MarkedAlike(r12, r21)))
  {
    hide Superseded;
    hide Queued;
    hide LastFor;
  }

  /** Both orders leave the same ids and the same marks. */
  ghost predicate SameMarks(t1: Table, t2: Table) {
    forall id :: MarkedAlike(RowOf(t1, id), RowOf(t2, id))
  }

  /**
   Two whole batches in either order, at any clocks: they leave the same rows marked if and only if no message
   is late, and at one clock the same table. A late message is left unretired in the order in which its batch
   comes second, the accepted out-of-order leak, or retired there for the type its row had before.
   */
  lemma BatchesCommuteExactly(t: Table, b1: seq<Alert>, b2: seq<Alert>,
                              received1: Time, now1: Time, received2: Time, now2: Time)
    requires Consistent(b1 + b2)
    ensures
      var t12 := CommitBatch(CommitBatch(t, b1, received1, now1), b2, received2, now2);
      var t21 := CommitBatch(CommitBatch(t, b2, received1, now1), b1, received2, now2);
      && (SameMarks(t12, t21) <==> NobodyIsLate(t, b1, b2))
      && (received1 == received2 && now1 == now2 ==> (t12 == t21 <==> NobodyIsLate(t, b1, b2)))
  {
    var t1, t2 := CommitBatch(t, b1, received1, now1), CommitBatch(t, b2, received1, now1);
    var t12, t21 := CommitBatch(t1, b2, received2, now2), CommitBatch(t2, b1, received2, now2);
    forall id
      ensures MarkedAlike(RowOf(t12, id), RowOf(t21, id))
        <==> !Late(RowOf(t, id), id, b1, b2) && !Late(RowOf(t, id), id, b2, b1)
      ensures received1 == received2 && now1 == now2 ==>
        (RowOf(t12, id) == RowOf(t21, id) <==> MarkedAlike(RowOf(t12, id), RowOf(t21, id)))
    {
      ConsistentBatchesAgree(b1, b2, id);
      CommitRow(t, b1, received1, now1, id);
      CommitRow(t, b2, received1, now1, id);
      CommitRow(t1, b2, received2, now2, id);
      CommitRow(t2, b1, received2, now2, id);
      hide *;
      RowCommutesExactly(RowOf(t, id), id, b1, b2, received1, now1, received2, now2);
    }
    hide CommitBatch;
    hide Late;
    if NobodyIsLate(t, b1, b2) && received1 == received2 && now1 == now2 {
      TablesEqual(t12, t21);
    }
  }
}
