/** When a storm can be lost: circles of references, and nothing else. */
module LostStorms {
  import opened Common
  import opened AlertTable
  import opened AlertStore
  import opened Fleet

  /** Every message of the batch is superseded by one of the batch, of its own type. */
  ghost predicate AllSuperseded(batch: seq<Alert>) {
    exists next :: SupersededInTurn(batch, next)
  }

  /** The message at `next[i]` supersedes the one at `i`. */
  predicate SupersededInTurn(batch: seq<Alert>, next: seq<nat>) {
    && |next| == |batch|
    && forall i {:trigger next[i]} :: 0 <= i < |next| ==>
         next[i] < |batch| && batch[i].id != ""
         && batch[next[i]].event == batch[i].event && batch[i].id in batch[next[i]].references
  }

  lemma EachIsSuperseded(batch: seq<Alert>, a: Alert)
    requires AllSuperseded(batch) && a in batch
    ensures Superseded(batch, a.id, a.event)
  {
    var next :| SupersededInTurn(batch, next);
    var i :| 0 <= i < |batch| && batch[i] == a;
    assert next[i] < |batch|;
    assert batch[next[i]] in batch;
  }

  /** One transaction of such a batch on an empty table retires everything it inserts. */
  lemma AllRetired(feed: Feed, start: State, n: nat, batch: seq<Alert>, receivedAt: Time)
    requires Initial(start) && AllSuperseded(batch)
    requires forall a :: a in batch ==> Lawful(feed, a) && Parseable(a)
    ensures
      var s := Apply(start, Transaction(n, batch, receivedAt));
      && s.landed == (set a | a in batch) && s.now == start.now
      && forall id :: id in s.table ==> s.table[id].retiredAt.Some?
  {
    var rows := LandAll(start.table, batch, receivedAt, start.now);
    QueuedMembers(batch);
    forall id | id in rows ensures id in SupersededRows(rows, Queued(batch)) {
      LandAllRow(start.table, batch, receivedAt, start.now, id);
      LastForMembers(batch, id);
      assert RowOf(rows, id).Some?;
      EachIsSuperseded(batch, LastFor(batch, id).value);
      StillSuperseded(batch, Queued(batch), LastFor(batch, id).value);
    }
  }

  lemma StillSuperseded(batch: seq<Alert>, queued: seq<Alert>, a: Alert)
    requires Superseded(batch, a.id, a.event) && forall b :: b in batch ==> b in queued
    ensures Superseded(queued, a.id, a.event)
  {
    var b :| b in batch && b.event == a.event && a.id in b.references;
    assert b in queued;
  }

  /** Nothing shown and nothing expired: no chain from a landed id has an end to lead to. */
  lemma NothingIsKept(feed: Feed, s: State, id: string)
    requires forall x :: x in s.table ==> s.table[x].retiredAt.Some?
    requires forall a :: a in s.landed ==> feed.expires(a.id) > s.now
    requires id in Ids(s.landed)
    ensures !Kept(feed, s, id)
  {
    forall chain: seq<string> | |chain| > 0 && chain[0] == id && Chain(s.landed, feed.event(id), chain)
      ensures !ShownOrExpired(feed, s, chain[|chain| - 1])
    {
      var last := chain[|chain| - 1];
      if |chain| > 1 {
        assert SupersededBy(s.landed, feed.event(id), chain[|chain| - 2], chain[|chain| - 2 + 1]);
      }
      assert last in Ids(s.landed);
    }
  }

  /** A batch in which every message is superseded loses them all while they are unexpired. */
  lemma SupersededBatchIsLost(feed: Feed, start: State, n: nat, batch: seq<Alert>, receivedAt: Time, id: string)
    requires Initial(start) && AllSuperseded(batch)
    requires forall a :: a in batch ==> Lawful(feed, a) && Parseable(a) && feed.expires(a.id) > start.now
    requires exists a :: a in batch && a.id == id
    ensures !Kept(feed, Apply(start, Transaction(n, batch, receivedAt)), id)
  {
    AllRetired(feed, start, n, batch, receivedAt);
    NothingIsKept(feed, Apply(start, Transaction(n, batch, receivedAt)), id);
  }

  /** A message that names itself is lost by its own batch. */
  lemma SelfReferenceIsLost(feed: Feed, start: State, n: nat, a: Alert, receivedAt: Time)
    requires Initial(start) && Lawful(feed, a) && Parseable(a) && feed.expires(a.id) > start.now && Supersedes(a, a)
    ensures !Kept(feed, Apply(start, Transaction(n, [a], receivedAt)), a.id)
  {
    assert SupersededInTurn([a], [0]);
    SupersededBatchIsLost(feed, start, n, [a], receivedAt, a.id);
  }

  /** The messages that make the links of a chain. */
  lemma {:induction false} LinksOf(landed: set<Alert>, event: string, chain: seq<string>) returns (links: seq<Alert>)
    requires |chain| > 0 && Chain(landed, event, chain)
    ensures |links| == |chain| - 1
    ensures forall i :: 0 <= i < |links| ==>
      && links[i] in landed && links[i].id == chain[i + 1] && links[i].event == event
      && chain[i] in links[i].references && chain[i] != ""
  {
    if |chain| == 1 {
      links := [];
    } else {
      assert SupersededBy(landed, event, chain[0], chain[1]);
      var a :| a in landed && a.id == chain[1] && a.event == event && chain[0] in a.references && chain[0] != "";
      ChainSuffix(landed, event, chain, 1);
      var rest := LinksOf(landed, event, chain[1..]);
      links := [a] + rest;
    }
  }

  /** The links of a circle supersede each other. */
  lemma CircleIsAllSuperseded(landed: set<Alert>, event: string, chain: seq<string>) returns (batch: seq<Alert>)
    requires |chain| > 1 && Chain(landed, event, chain) && chain[0] == chain[|chain| - 1]
    ensures AllSuperseded(batch) && batch != [] && forall a :: a in batch ==> a in landed
  {
    batch := LinksOf(landed, event, chain);
    var next: seq<nat> := seq(|batch|, i requires 0 <= i < |batch| => if i + 1 < |batch| then i + 1 else 0);
    forall i | 0 <= i < |next|
      ensures next[i] < |batch| && batch[i].id != ""
      ensures batch[next[i]].event == batch[i].event && batch[i].id in batch[next[i]].references
    {
      assert chain[next[i]] == batch[i].id;
    }
    assert SupersededInTurn(batch, next);
  }

  /** What a run takes in comes from these messages. */
  ghost predicate TakesFrom(messages: set<Alert>, steps: seq<Step>) {
    forall i, a :: 0 <= i < |steps| && a in Incoming(steps[i]) ==> a in messages
  }

  /** No run of these messages, however they are batched, interleaved and cut short, loses a storm. */
  ghost predicate NeverLoses(feed: Feed, messages: set<Alert>) {
    forall start, steps, id ::
      Initial(start) && Runs(start, steps) && TakesFrom(messages, steps) && Known(After(start, steps), id)
      ==> Kept(feed, After(start, steps), id)
  }

  lemma {:induction false} EarliestExpiry(feed: Feed, batch: seq<Alert>) returns (before: Time)
    ensures forall a :: a in batch ==> before < feed.expires(a.id)
  {
    if batch == [] {
      before := 0;
    } else {
      var n := |batch| - 1;
      before := EarliestExpiry(feed, batch[..n]);
      if feed.expires(batch[n].id) <= before {
        before := feed.expires(batch[n].id) - 1;
      }
      assert batch == batch[..n] + [batch[n]];
    }
  }

  /** The messages that can land. */
  function Landable(messages: set<Alert>): set<Alert> {
    set a | a in messages && Parseable(a)
  }

  /** What lands was taken in. */
  ghost predicate OnlyFrom(messages: set<Alert>, s: State) {
    && s.landed <= Landable(messages)
    && forall n, a :: n in s.nodes && s.nodes[n].Inserting? && a in s.nodes[n].todo ==> a in messages
  }

  lemma {:induction false} LandedWereTaken(messages: set<Alert>, s: State, steps: seq<Step>)
    requires Runs(s, steps) && TakesFrom(messages, steps) && OnlyFrom(messages, s)
    ensures OnlyFrom(messages, After(s, steps))
    decreases |steps|
  {
    if steps == [] {
    } else {
      var s' := Apply(s, steps[0]);
      assert forall a :: a in Incoming(steps[0]) ==> a in messages;
      match steps[0] {
        case Transaction(_, alerts, _) => QueuedMembers(alerts);
        case InsertRow(n, _) => assert s.nodes[n].todo[0] in s.nodes[n].todo;
        case _ =>
      }
      assert OnlyFrom(messages, s');
      LandedWereTaken(messages, s', steps[1..]);
    }
  }

  /**
   The exact condition: messages of fixed type and expiry are never lost, in any run, if and only if the
   same-type references between those that can land run in no circle.
   */
  lemma NothingLostExactly(feed: Feed, messages: set<Alert>)
    requires forall a :: a in messages ==> Lawful(feed, a)
    ensures NeverLoses(feed, messages) <==> Acyclic(Landable(messages))
  {
    var landable := Landable(messages);
    if Acyclic(landable) {
      forall start, steps, id | Initial(start) && Runs(start, steps) && TakesFrom(messages, steps)
                                && Known(After(start, steps), id)
        ensures Kept(feed, After(start, steps), id)
      {
        LandedWereTaken(messages, start, steps);
        FewerAreAcyclic(After(start, steps).landed, landable);
        NoStormIsLost(feed, start, steps, id);
      }
    } else {
      var event, chain :| |chain| > 1 && Chain(landable, event, chain) && chain[0] == chain[|chain| - 1];
      var batch := CircleIsAllSuperseded(landable, event, chain);
      CircleIsLost(feed, messages, batch);
    }
  }

  lemma FewerAreAcyclic(fewer: set<Alert>, messages: set<Alert>)
    requires Acyclic(messages) && fewer <= messages
    ensures Acyclic(fewer)
  {
    forall event, chain | |chain| > 1 && Chain(fewer, event, chain) ensures chain[0] != chain[|chain| - 1] {
      forall i | 0 <= i < |chain| - 1 ensures SupersededBy(messages, event, chain[i], chain[i + 1]) {
        assert SupersededBy(fewer, event, chain[i], chain[i + 1]);
        var a :| a in fewer && a.id == chain[i + 1] && a.event == event && chain[i] in a.references && chain[i] != "";
        assert a in messages;
      }
      assert Chain(messages, event, chain);
    }
  }

  lemma LosesOne(feed: Feed, messages: set<Alert>, start: State, steps: seq<Step>, id: string)
    requires Initial(start) && Runs(start, steps) && TakesFrom(messages, steps) && Known(After(start, steps), id)
    requires !Kept(feed, After(start, steps), id)
    ensures !NeverLoses(feed, messages)
  {
    hide Initial;
    hide Runs;
    hide After;
    hide TakesFrom;
    hide Known;
    hide Kept;
  }

  lemma CircleIsLost(feed: Feed, messages: set<Alert>, batch: seq<Alert>)
    requires forall a :: a in messages ==> Lawful(feed, a)
    requires AllSuperseded(batch) && batch != [] && forall a :: a in batch ==> a in Landable(messages)
    ensures !NeverLoses(feed, messages)
  {
    var now := EarliestExpiry(feed, batch);
    var start := State(map[], now, map[], {});
    var steps := [Transaction(0, batch, now)];
    var id := batch[0].id;
    OneStep(start, steps[0]);
    AllRetired(feed, start, 0, batch, now);
    assert batch[0] in After(start, steps).landed;
    SupersededBatchIsLost(feed, start, 0, batch, now, id);
    assert TakesFrom(messages, steps) && Known(After(start, steps), id);
    hide *;
    LosesOne(feed, messages, start, steps, id);
  }
}
