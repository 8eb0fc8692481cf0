/** From the table to the published snapshot: the tail of GetActiveAlerts (internal/store/postgres.go). */
module Snapshot {
  import opened Common
  import opened AlertTable
  import opened Collapse
  import opened VtecParser
  import opened Warnings
  import Areas
  import Detection
  import Tags
  import Fleet

  /** Postgres text holds no NUL. */
  predicate TextTable(t: Table) {
    forall id :: id in t ==> '\0' !in t[id].eventType && '\0' !in t[id].content.areaDesc
  }

  /** The rows of activeAlertsSQL: exactly the active ones, each once, newest first. */
  predicate IsQueryResult(t: Table, now: Time, ids: seq<string>) {
    && (forall i :: 0 <= i < |ids| ==> Active(t, now, ids[i]))
    && (forall id :: id in t && Active(t, now, id) ==> id in ids)
    && (forall i, j :: 0 <= i < j < |ids| ==> ids[i] != ids[j] && t[ids[i]].effectiveAt >= t[ids[j]].effectiveAt)
  }

  /** The warning a row belongs to, or the empty id: a row without a parseable VTEC is never grouped. */
  function RowEventID(row: Row): (id: string)
    ensures '\0' !in id
  {
    var vtec := ParseVtec(row.content.parameters);
    if vtec.Found? then
      EventIDInjective(vtec.vtec, vtec.vtec);
      EventID(vtec.vtec)
    else ""
  }

  function ToActive(id: string, row: Row, statesOf: Row -> seq<string>): ActiveAlert {
    ActiveAlert(id, row.eventType, row.content.areaDesc, row.effectiveAt, row.expiresAt, RowEventID(row), statesOf(row),
                Tags.ParseTags(row.content.description), DetectionOf(row))
  }

  /** A detection that cannot be read is left out; the row ships all the same. */
  function DetectionOf(row: Row): Option<TornadoDetection> {
    match Detection.Detect(row.content.parameters, row.content.description)
    case Detected(det) => Some(det)
    case _ => None
  }

  /** `statesOf` is what the codes and the description of each row say. */
  ghost predicate DerivesStates(statesOf: Row -> seq<string>, stateFor: string -> Option<string>,
                                known: string -> bool)
  {
    forall row :: Areas.Derived(statesOf(row), row.content.same, row.content.areaDesc, stateFor, known)
  }

  /** A snapshot row, column by column, from the table row it shows. */
  predicate Shows(w: ActiveAlert, row: Row, statesOf: Row -> seq<string>) {
    && w.eventType == row.eventType && w.areaDesc == row.content.areaDesc
    && w.effectiveAt == row.effectiveAt && w.expiresAt == row.expiresAt
    && w.states == statesOf(row)
    && (match ParseVtec(row.content.parameters)
        case Found(v) => w.eventID == EventID(v)
        case _ => w.eventID == "")
    && w.tags == Tags.ParseTags(row.content.description)
    && (match Detection.Detect(row.content.parameters, row.content.description)
        case Detected(det) => w.tornado == Some(det)
        case _ => w.tornado == None)
  }

  function Scanned(t: Table, ids: seq<string>, statesOf: Row -> seq<string>): seq<ActiveAlert>
    requires forall i :: 0 <= i < |ids| ==> ids[i] in t
  {
    seq(|ids|, i requires 0 <= i < |ids| => ToActive(ids[i], t[ids[i]], statesOf))
  }

  function SnapshotOf(t: Table, ids: seq<string>, statesOf: Row -> seq<string>): seq<ActiveAlert>
    requires forall i :: 0 <= i < |ids| ==> ids[i] in t
  {
    Collapsed(Scanned(t, ids, statesOf), |ids|)
  }

  /** Scanning the cursor, deriving what each row carries, and collapsing. */
  method GetActiveAlerts(t: Table, now: Time, ids: seq<string>, stateFor: string -> Option<string>,
                         known: string -> bool, ghost statesOf: Row -> seq<string>)
    returns (alerts: seq<ActiveAlert>)
    requires TextTable(t) && IsQueryResult(t, now, ids) && DerivesStates(statesOf, stateFor, known)
    ensures alerts == SnapshotOf(t, ids, statesOf)
    ensures forall w :: w in alerts ==>
      && w.nwsID in t && Shows(w, t[w.nwsID], statesOf)
      && t[w.nwsID].expiresAt > now && t[w.nwsID].retiredAt.None?
  {
    hide Detection.Detect;
    hide Tags.ParseTags;
    hide Areas.Derived;
    hide ParseVtec;
    var rows: seq<ActiveAlert> := [];
    for i := 0 to |ids|
      invariant rows == Scanned(t, ids[..i], statesOf)
    {
      var row := t[ids[i]];
      var vtec := ParseVTEC(row.content.parameters);
      var eventID := "";
      if vtec.Found? {
        eventID := EventID(vtec.vtec);
      }
      var tags := Tags.ParseWarningTags(row.content.description);
      var states, usedFallback := Areas.DeriveStates(row.content.same, row.content.areaDesc, stateFor, known);
      Areas.DerivedIsUnique(states, statesOf(row), row.content.same, row.content.areaDesc, stateFor, known);
      var detection := Detection.DetectTornado(row.content.parameters, row.content.description);
      var tornado := None;
      if detection.Detected? {
        tornado := Some(detection.det);
      }
      rows := rows + [ActiveAlert(ids[i], row.eventType, row.content.areaDesc, row.effectiveAt, row.expiresAt,
                                  eventID, states, tags, tornado)];
    }
    assert ids[..|ids|] == ids;
    forall i | 0 <= i < |rows| ensures NulFree(rows[i]) {
      assert rows[i].eventID == RowEventID(t[ids[i]]);
    }
    alerts := CollapseByEvent(rows);
    forall w | w in alerts
      ensures w.nwsID in t && Shows(w, t[w.nwsID], statesOf)
      ensures t[w.nwsID].expiresAt > now && t[w.nwsID].retiredAt.None?
    {
      SnapshotShowsOnlyActive(t, now, ids, statesOf, w);
    }
  }

  /** A snapshot row stands for a table row: same VTEC identity, type and footprint, and not issued earlier. */
  predicate Represents(w: ActiveAlert, id: string, row: Row) {
    && w.eventID == RowEventID(row) && w.eventType == row.eventType && w.areaDesc == row.content.areaDesc
    && w.effectiveAt >= row.effectiveAt
    && (RowEventID(row) == "" ==> w.nwsID == id)
  }

  /** Every unexpired, unretired row is represented in the snapshot. */
  lemma SnapshotCovers(t: Table, now: Time, ids: seq<string>, statesOf: Row -> seq<string>, id: string)
    returns (w: ActiveAlert)
    requires IsQueryResult(t, now, ids) && Active(t, now, id)
    ensures w in SnapshotOf(t, ids, statesOf) && Represents(w, id, t[id])
  {
    var rows := Scanned(t, ids, statesOf);
    var i :| 0 <= i < |ids| && ids[i] == id;
    var a := rows[i];
    w := RowIsRepresented(rows, a);
  }

  lemma ToActiveID(id: string, row: Row, statesOf: Row -> seq<string>)
    ensures ToActive(id, row, statesOf).nwsID == id
  {}

  lemma ToActiveShows(id: string, row: Row, statesOf: Row -> seq<string>)
    ensures Shows(ToActive(id, row, statesOf), row, statesOf)
  {
    hide Detection.Detect;
    hide Tags.ParseTags;
    hide ParseVtec;
    hide EventID;
  }

  /** Everything shown is an unexpired, unretired row under its own id, column by column. */
  lemma SnapshotShowsOnlyActive(t: Table, now: Time, ids: seq<string>, statesOf: Row -> seq<string>, w: ActiveAlert)
    requires IsQueryResult(t, now, ids) && w in SnapshotOf(t, ids, statesOf)
    ensures w.nwsID in t && Shows(w, t[w.nwsID], statesOf)
    ensures t[w.nwsID].expiresAt > now && t[w.nwsID].retiredAt.None?
  {
    hide ToActive;
    hide Shows;
    var rows, out := Scanned(t, ids, statesOf), SnapshotOf(t, ids, statesOf);
    var p :| 0 <= p < |out| && out[p] == w;
    SurvivorAt(rows, p);
    hide Collapsed;
    var i :| 0 <= i < |rows| && rows[i] == w;
    assert w == ToActive(ids[i], t[ids[i]], statesOf);
    ToActiveShows(ids[i], t[ids[i]], statesOf);
    assert ids[i] == w.nwsID by {
      ToActiveID(ids[i], t[ids[i]], statesOf);
    }
  }

  /**
   Nothing is published as a confirmed tornado unless the row's own parameter says OBSERVED, or says nothing and
   the last TORNADO tag of its description does.
   */
  lemma ConfirmedOnlyWhenObserved(t: Table, now: Time, ids: seq<string>, statesOf: Row -> seq<string>, w: ActiveAlert)
    requires IsQueryResult(t, now, ids) && w in SnapshotOf(t, ids, statesOf)
    ensures w.nwsID in t
    ensures
      var params, description := t[w.nwsID].content.parameters, t[w.nwsID].content.description;
      (w.tornado.Some? && w.tornado.value.confirmed) <==>
        || Detection.ParameterObserved(params)
        || (Detection.ParameterSilent(params) && Detection.LastTagObserved(description))
  {
    SnapshotShowsOnlyActive(t, now, ids, statesOf, w);
    Detection.ObservedExactly(t[w.nwsID].content.parameters, t[w.nwsID].content.description);
    hide *;
    hide Detection.Detect;
  }

  /** The rows share no id and stay newest first through the collapse. */
  lemma SnapshotIsOrdered(t: Table, now: Time, ids: seq<string>, statesOf: Row -> seq<string>)
    requires IsQueryResult(t, now, ids)
    ensures UniqueIds(Scanned(t, ids, statesOf))
    ensures NewestFirst(SnapshotOf(t, ids, statesOf))
  {
    var rows := Scanned(t, ids, statesOf);
    assert NewestFirst(rows);
    CollapseKeepsOrder(rows);
    forall a, b | a in rows && b in rows && a.nwsID == b.nwsID ensures a == b {
      var i :| 0 <= i < |rows| && rows[i] == a;
      var j :| 0 <= j < |rows| && rows[j] == b;
      assert ids[i] == ids[j];
    }
  }

  /** Two query results of one table, whatever order the ties come in, give the same surviving rows. */
  lemma SnapshotIgnoresTies(t: Table, now: Time, ids: seq<string>, other: seq<string>,
                            statesOf: Row -> seq<string>, w: ActiveAlert)
    requires IsQueryResult(t, now, ids) && IsQueryResult(t, now, other)
    ensures w in SnapshotOf(t, ids, statesOf) <==> w in SnapshotOf(t, other, statesOf)
  {
    hide ToActive;
    hide Collapsed;
    SnapshotIsOrdered(t, now, ids, statesOf);
    SnapshotIsOrdered(t, now, other, statesOf);
    var a, b := Scanned(t, ids, statesOf), Scanned(t, other, statesOf);
    forall x ensures x in a <==> x in b {
      if x in a {
        var i :| 0 <= i < |a| && a[i] == x;
        var j :| 0 <= j < |other| && other[j] == ids[i];
        assert b[j] == x;
      }
      if x in b {
        var j :| 0 <= j < |b| && b[j] == x;
        var i :| 0 <= i < |ids| && ids[i] == other[j];
        assert a[i] == x;
      }
    }
    SurvivorsExactly(a, w);
    SurvivorsExactly(b, w);
  }

  /** A retired id is in no later snapshot of any run. */
  lemma RetiredIsNeverPublished(feed: Fleet.Feed, start: Fleet.State, before: seq<Fleet.Step>, after: seq<Fleet.Step>,
                                id: string, ids: seq<string>, statesOf: Row -> seq<string>)
    requires Fleet.Initial(start) && Fleet.Runs(start, before) && Fleet.Runs(Fleet.After(start, before), after)
    requires Fleet.FixesExpiry(feed, before) && Fleet.FixesExpiry(feed, after)
    requires
      var t := Fleet.After(start, before).table;
      id in t && t[id].retiredAt.Some?
    requires
      var s := Fleet.After(Fleet.After(start, before), after);
      IsQueryResult(s.table, s.now, ids)
    ensures
      var s := Fleet.After(Fleet.After(start, before), after);
      forall w :: w in SnapshotOf(s.table, ids, statesOf) ==> w.nwsID != id
  {
    var s := Fleet.After(Fleet.After(start, before), after);
    Fleet.RetiredNeverReappears(feed, start, before, after, id);
    forall w | w in SnapshotOf(s.table, ids, statesOf) ensures w.nwsID != id {
      SnapshotShowsOnlyActive(s.table, s.now, ids, statesOf, w);
    }
  }

  /**
   From feed to snapshot: in every run of the fleet whose landed references run in no circle, every landed
   message leads along a chain of same-type superseders to one that has expired or that the snapshot represents.
   */
  lemma EveryStormIsPublished(feed: Fleet.Feed, start: Fleet.State, steps: seq<Fleet.Step>, a: Alert,
                              ids: seq<string>, statesOf: Row -> seq<string>)
    requires Fleet.Initial(start) && Fleet.Runs(start, steps) && Fleet.ObeysFeed(feed, steps)
    requires a in Fleet.After(start, steps).landed && Fleet.Acyclic(Fleet.After(start, steps).landed)
    requires IsQueryResult(Fleet.After(start, steps).table, Fleet.After(start, steps).now, ids)
    ensures
      var s := Fleet.After(start, steps);
      exists chain: seq<string> ::
        && |chain| > 0 && chain[0] == a.id && Fleet.Chain(s.landed, feed.event(a.id), chain)
        && var last := chain[|chain| - 1];
           (feed.expires(last) <= s.now
            || (last in s.table
                && exists w :: w in SnapshotOf(s.table, ids, statesOf) && Represents(w, last, s.table[last])))
  {
    var s := Fleet.After(start, steps);
    Fleet.NoStormIsLost(feed, start, steps, a.id);
    var chain: seq<string> :| |chain| > 0 && chain[0] == a.id && Fleet.Chain(s.landed, feed.event(a.id), chain)
      && Fleet.ShownOrExpired(feed, s, chain[|chain| - 1]);
    var last := chain[|chain| - 1];
    if Active(s.table, s.now, last) {
      var w := SnapshotCovers(s.table, s.now, ids, statesOf, last);
    }
  }
}
