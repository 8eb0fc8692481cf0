/**
 The fleet: any number of nodes write one alert table, in any interleaving, and any of them
 may stop at any point. A statement or a committed transaction is one step; the database clock
 never goes back.
 */
module Fleet {
  import opened Common
  import opened AlertTable
  import opened AlertStore

  /** Where a node stands on the degraded path; the transaction itself is one step. */
  datatype Node =
    | Idle
    | Inserting(todo: seq<Alert>, succeeded: seq<Alert>)
    | Retiring(groups: Groups)

  /** `landed` is the history of every message whose own upsert took effect. */
  datatype State = State(table: Table, now: Time, nodes: map<nat, Node>, landed: set<Alert>)

  datatype Step =
    | Tick(delta: nat)
    | Transaction(node: nat, alerts: seq<Alert>, receivedAt: Time)
    | FallBack(node: nat, alerts: seq<Alert>)
    | InsertRow(node: nat, receivedAt: Time)
    | DropRow(node: nat)
    | StartRetire(node: nat)
    | RetireGroup(node: nat, event: string)
    | Stop(node: nat)
    | PurgeRows
    | ReadSnapshot

  function NodeAt(s: State, n: nat): Node {
    if n in s.nodes then s.nodes[n] else Idle
  }

  /** An empty table, every node idle, the clock anywhere. */
  predicate Initial(s: State) {
    s.table == map[] && s.nodes == map[] && s.landed == {}
  }

  predicate Enabled(s: State, step: Step) {
    match step
    case Transaction(n, _, _) => NodeAt(s, n).Idle?
    case FallBack(n, _) => NodeAt(s, n).Idle?
    case InsertRow(n, _) =>
      var node := NodeAt(s, n);
      node.Inserting? && node.todo != [] && Parseable(node.todo[0])
    case DropRow(n) => NodeAt(s, n).Inserting? && NodeAt(s, n).todo != []
    case StartRetire(n) => NodeAt(s, n).Inserting? && NodeAt(s, n).todo == []
    case RetireGroup(n, e) => NodeAt(s, n).Retiring? && e in NodeAt(s, n).groups
    case _ => true
  }

  function Apply(s: State, step: Step): State
    requires Enabled(s, step)
  {
    match step
    case Tick(delta) => s.(now := s.now + delta)
    case Transaction(n, alerts, receivedAt) =>
      s.(table := CommitBatch(s.table, alerts, receivedAt, s.now),
         landed := s.landed + set a | a in Queued(alerts))
    case FallBack(n, alerts) => s.(nodes := s.nodes[n := Inserting(alerts, [])])
    case InsertRow(n, receivedAt) =>
      var Inserting(todo, succeeded) := NodeAt(s, n);
      s.(table := Land(s.table, todo[0], receivedAt, s.now),
         landed := s.landed + {todo[0]},
         nodes := s.nodes[n := Inserting(todo[1..], succeeded + [todo[0]])])
    case DropRow(n) =>
      var Inserting(todo, succeeded) := NodeAt(s, n);
      s.(nodes := s.nodes[n := Inserting(todo[1..], succeeded)])
    case StartRetire(n) =>
      s.(nodes := s.nodes[n := Retiring(GroupReferences(NodeAt(s, n).succeeded))])
    case RetireGroup(n, e) =>
      var groups := NodeAt(s, n).groups;
      s.(table := RetireByReference(s.table, groups[e], e, s.now),
         nodes := s.nodes[n := Retiring(groups - {e})])
    case Stop(n) => s.(nodes := s.nodes[n := Idle])
    case PurgeRows => s.(table := Purge(s.table, s.now))
    case ReadSnapshot => s
  }

  predicate Runs(s: State, steps: seq<Step>)
    decreases |steps|
  {
    steps == [] || (Enabled(s, steps[0]) && Runs(Apply(s, steps[0]), steps[1..]))
  }

  function After(s: State, steps: seq<Step>): State
    requires Runs(s, steps)
    decreases |steps|
  {
    if steps == [] then s else After(Apply(s, steps[0]), steps[1..])
  }

  lemma OneStep(s: State, step: Step)
    requires Enabled(s, step)
    ensures Runs(s, [step]) && After(s, [step]) == Apply(s, step)
  {
    assert [step][1..] == [];
    assert Runs(Apply(s, step), [step][1..]);
  }

  // ----- what is assumed of the feed, only where it is used -----

  /** An id fixes its expiry and its type. */
  datatype Feed = Feed(expires: string -> Time, event: string -> string)

  ghost predicate ExpiryFixed(feed: Feed, a: Alert) {
    a.expires.Some? ==> a.expires.value == feed.expires(a.id)
  }

  ghost predicate Lawful(feed: Feed, a: Alert) {
    ExpiryFixed(feed, a) && a.event == feed.event(a.id)
  }

  function Incoming(step: Step): seq<Alert> {
    match step
    case Transaction(_, alerts, _) => alerts
    case FallBack(_, alerts) => alerts
    case _ => []
  }

  ghost predicate FixesExpiry(feed: Feed, steps: seq<Step>) {
    forall i, a :: 0 <= i < |steps| && a in Incoming(steps[i]) ==> ExpiryFixed(feed, a)
  }

  ghost predicate ObeysFeed(feed: Feed, steps: seq<Step>) {
    forall i, a :: 0 <= i < |steps| && a in Incoming(steps[i]) ==> Lawful(feed, a)
  }

  // ----- a retired id never comes back -----

  ghost predicate PendingFixesExpiry(feed: Feed, s: State) {
    forall n, a :: n in s.nodes && s.nodes[n].Inserting? && a in s.nodes[n].todo ==> ExpiryFixed(feed, a)
  }

  ghost predicate ExpiryInvariant(feed: Feed, s: State) {
    && PendingFixesExpiry(feed, s)
    && forall id :: id in s.table ==> s.table[id].expiresAt == feed.expires(id)
  }

  /** Marked in the table, or expired for good. */
  ghost predicate Gone(feed: Feed, s: State, id: string) {
    (id in s.table && s.table[id].retiredAt.Some?) || feed.expires(id) < s.now
  }

  lemma LandAllKeepsMarks(t: Table, batch: seq<Alert>, receivedAt: Time, now: Time, id: string)
    requires id in t
    ensures
      var landed := LandAll(t, batch, receivedAt, now);
      id in landed && landed[id].retiredAt == t[id].retiredAt
  {
    LandAllRow(t, batch, receivedAt, now, id);
  }

  lemma StepKeepsExpiry(feed: Feed, s: State, step: Step)
    requires ExpiryInvariant(feed, s) && Enabled(s, step)
    requires forall a :: a in Incoming(step) ==> ExpiryFixed(feed, a)
    ensures ExpiryInvariant(feed, Apply(s, step))
  {
    match step
    case Transaction(n, alerts, receivedAt) =>
      var landed := LandAll(s.table, alerts, receivedAt, s.now);
      forall id | id in landed ensures landed[id].expiresAt == feed.expires(id) {
        LandAllRow(s.table, alerts, receivedAt, s.now, id);
        LastForMembers(alerts, id);
        assert RowOf(landed, id).Some?;
        assert LastFor(alerts, id).Some? ==> LastFor(alerts, id).value in Incoming(step);
      }
    case FallBack(n, alerts) =>
      assert forall a :: a in alerts ==> a in Incoming(step);
    case InsertRow(n, receivedAt) =>
      var a := s.nodes[n].todo[0];
      assert a in s.nodes[n].todo && ExpiryFixed(feed, a);
    case _ =>
  }

  lemma StepKeepsGone(feed: Feed, s: State, step: Step, id: string)
    requires ExpiryInvariant(feed, s) && Enabled(s, step) && Gone(feed, s, id)
    ensures Gone(feed, Apply(s, step), id)
  {
    match step
    case Transaction(n, alerts, receivedAt) =>
      if id in s.table {
        LandAllKeepsMarks(s.table, alerts, receivedAt, s.now, id);
      }
    case _ =>
  }

  lemma {:induction false} RunKeepsExpiry(feed: Feed, s: State, steps: seq<Step>)
    requires ExpiryInvariant(feed, s) && Runs(s, steps) && FixesExpiry(feed, steps)
    ensures ExpiryInvariant(feed, After(s, steps))
    decreases |steps|
  {
    if steps == [] {
    } else {
      StepKeepsExpiry(feed, s, steps[0]);
      RunKeepsExpiry(feed, Apply(s, steps[0]), steps[1..]);
    }
  }

  lemma {:induction false} RunKeepsGone(feed: Feed, s: State, steps: seq<Step>, id: string)
    requires ExpiryInvariant(feed, s) && Runs(s, steps) && FixesExpiry(feed, steps) && Gone(feed, s, id)
    ensures Gone(feed, After(s, steps), id)
    decreases |steps|
  {
    if steps == [] {
    } else {
      StepKeepsExpiry(feed, s, steps[0]);
      StepKeepsGone(feed, s, steps[0], id);
      RunKeepsGone(feed, Apply(s, steps[0]), steps[1..], id);
    }
  }

  /**
   Once a row is retired its id is in no later snapshot, whatever any node does: a re-upsert keeps
   the mark, and a row inserted again after a purge has already expired.
   */
  lemma RetiredNeverReappears(feed: Feed, start: State, before: seq<Step>, after: seq<Step>, id: string)
    requires Initial(start) && Runs(start, before) && Runs(After(start, before), after)
    requires FixesExpiry(feed, before) && FixesExpiry(feed, after)
    requires
      var t := After(start, before).table;
      id in t && t[id].retiredAt.Some?
    ensures
      var s := After(After(start, before), after);
      !Active(s.table, s.now, id)
  {
    var mid := After(start, before);
    RunKeepsExpiry(feed, start, before);
    RunKeepsGone(feed, mid, after, id);
    RunKeepsExpiry(feed, mid, after);
  }

  // ----- no superseded storm is lost -----

  /** A landed message `next` of type `event` names `id` as a prior message. */
  ghost predicate SupersededBy(landed: set<Alert>, event: string, id: string, next: string) {
    exists a :: a in landed && a.id == next && a.event == event && id in a.references && id != ""
  }

  /** Some landed message of this type names `id` as a prior message. */
  ghost predicate HasSuccessor(landed: set<Alert>, event: string, id: string) {
    exists a :: a in landed && a.event == event && id in a.references && id != ""
  }

  ghost predicate NodeInvariant(feed: Feed, landed: set<Alert>, node: Node) {
    match node
    case Idle => true
    case Inserting(todo, succeeded) =>
      && (forall a :: a in todo ==> Lawful(feed, a))
      && (forall a :: a in succeeded ==> a in landed)
    case Retiring(groups) =>
      forall e, id :: InGroup(groups, e, id) ==> HasSuccessor(landed, e, id)
  }

  ghost predicate RowInvariant(feed: Feed, s: State, id: string)
    requires id in s.table
  {
    var row := s.table[id];
    && row.expiresAt == feed.expires(id) && row.eventType == feed.event(id)
    && (row.retiredAt.Some? ==> HasSuccessor(s.landed, feed.event(id), id))
  }

  ghost predicate LandedInvariant(feed: Feed, s: State, a: Alert) {
    Parseable(a) && Lawful(feed, a) && (a.id in s.table || feed.expires(a.id) < s.now)
  }

  ghost predicate Invariant(feed: Feed, s: State) {
    && (forall n :: n in s.nodes ==> NodeInvariant(feed, s.landed, s.nodes[n]))
    && (forall id :: id in s.table ==> RowInvariant(feed, s, id))
    && (forall a :: a in s.landed ==> LandedInvariant(feed, s, a))
  }

  lemma SupersededHasSuccessor(landed: set<Alert>, batch: seq<Alert>, event: string, id: string)
    requires Superseded(batch, id, event) && forall a :: a in batch ==> a in landed
    ensures HasSuccessor(landed, event, id)
  {
    var a :| a in batch && a.event == event && id in a.references;
    assert a in landed;
  }

  lemma LandAllLawful(feed: Feed, s: State, alerts: seq<Alert>, receivedAt: Time, id: string)
    requires Invariant(feed, s) && forall a :: a in alerts ==> Lawful(feed, a)
    requires id in LandAll(s.table, alerts, receivedAt, s.now)
    ensures
      var row := LandAll(s.table, alerts, receivedAt, s.now)[id];
      && row.expiresAt == feed.expires(id) && row.eventType == feed.event(id)
      && (row.retiredAt.Some? ==> HasSuccessor(s.landed, feed.event(id), id))
  {
    LandAllRow(s.table, alerts, receivedAt, s.now, id);
    LastForMembers(alerts, id);
    assert RowOf(LandAll(s.table, alerts, receivedAt, s.now), id).Some?;
  }

  lemma TransactionKeepsInvariant(feed: Feed, s: State, n: nat, alerts: seq<Alert>, receivedAt: Time)
    requires Invariant(feed, s) && NodeAt(s, n).Idle? && forall a :: a in alerts ==> Lawful(feed, a)
    ensures Invariant(feed, Apply(s, Transaction(n, alerts, receivedAt)))
  {
    var s' := Apply(s, Transaction(n, alerts, receivedAt));
    var rows := LandAll(s.table, alerts, receivedAt, s.now);
    QueuedMembers(alerts);
    forall id | id in s'.table ensures RowInvariant(feed, s', id) {
      LandAllLawful(feed, s, alerts, receivedAt, id);
      if id in SupersededRows(rows, Queued(alerts)) {
        SupersededHasSuccessor(s'.landed, Queued(alerts), rows[id].eventType, id);
      }
    }
    forall a | a in s'.landed ensures LandedInvariant(feed, s', a) {
      LandAllRow(s.table, alerts, receivedAt, s.now, a.id);
      LastForMembers(alerts, a.id);
      assert a.id in rows <==> RowOf(rows, a.id).Some?;
    }
    forall n | n in s'.nodes ensures NodeInvariant(feed, s'.landed, s'.nodes[n]) {
      NodeInvariantMonotone(feed, s.landed, s'.landed, s.nodes[n]);
    }
  }

  lemma NodeInvariantMonotone(feed: Feed, landed: set<Alert>, more: set<Alert>, node: Node)
    requires NodeInvariant(feed, landed, node) && landed <= more
    ensures NodeInvariant(feed, more, node)
  {
    if node.Retiring? {
      forall e, id | InGroup(node.groups, e, id) ensures HasSuccessor(more, e, id) {
        assert HasSuccessor(landed, e, id);
      }
    }
  }

  lemma InsertKeepsInvariant(feed: Feed, s: State, n: nat, receivedAt: Time)
    requires Invariant(feed, s) && Enabled(s, InsertRow(n, receivedAt))
    ensures Invariant(feed, Apply(s, InsertRow(n, receivedAt)))
  {
    var s' := Apply(s, InsertRow(n, receivedAt));
    var a := NodeAt(s, n).todo[0];
    assert NodeInvariant(feed, s.landed, s.nodes[n]);
    assert Lawful(feed, a);
    forall id | id in s'.table ensures RowInvariant(feed, s', id) {
      if id in s.table {
        assert RowInvariant(feed, s, id);
      }
    }
    forall b | b in s'.landed ensures LandedInvariant(feed, s', b) {
      assert b != a ==> LandedInvariant(feed, s, b);
    }
    forall m | m in s'.nodes ensures NodeInvariant(feed, s'.landed, s'.nodes[m]) {
      NodeInvariantMonotone(feed, s.landed, s'.landed, NodeAt(s, m));
    }
  }

  lemma RetireKeepsInvariant(feed: Feed, s: State, n: nat, event: string)
    requires Invariant(feed, s) && Enabled(s, RetireGroup(n, event))
    ensures Invariant(feed, Apply(s, RetireGroup(n, event)))
  {
    var s' := Apply(s, RetireGroup(n, event));
    var groups := NodeAt(s, n).groups;
    assert NodeInvariant(feed, s.landed, s.nodes[n]);
    forall id | id in s'.table ensures RowInvariant(feed, s', id) {
      assert RowInvariant(feed, s, id);
      if id in Matching(s.table, groups[event], event) {
        assert InGroup(groups, event, id);
      }
    }
    forall a | a in s'.landed ensures LandedInvariant(feed, s', a) {
      assert LandedInvariant(feed, s, a);
    }
    forall e, id | InGroup(groups - {event}, e, id) ensures HasSuccessor(s.landed, e, id) {
      assert InGroup(groups, e, id);
    }
  }

  lemma StepKeepsInvariant(feed: Feed, s: State, step: Step)
    requires Invariant(feed, s) && Enabled(s, step)
    requires forall a :: a in Incoming(step) ==> Lawful(feed, a)
    ensures Invariant(feed, Apply(s, step))
  {
    var s' := Apply(s, step);
    match step
    case Transaction(n, alerts, receivedAt) => TransactionKeepsInvariant(feed, s, n, alerts, receivedAt);
    case InsertRow(n, receivedAt) => InsertKeepsInvariant(feed, s, n, receivedAt);
    case RetireGroup(n, e) => RetireKeepsInvariant(feed, s, n, e);
    case StartRetire(n) =>
      var succeeded := s.nodes[n].succeeded;
      GroupReferencesMeaning(succeeded);
      assert NodeInvariant(feed, s.landed, s.nodes[n]);
      forall e, id | InGroup(GroupReferences(succeeded), e, id) ensures HasSuccessor(s.landed, e, id) {
        SupersededHasSuccessor(s.landed, succeeded, e, id);
      }
      OtherPartsKept(feed, s, s');
    case PurgeRows =>
      forall id | id in s'.table ensures RowInvariant(feed, s', id) {
        assert RowInvariant(feed, s, id);
      }
      forall a | a in s'.landed ensures LandedInvariant(feed, s', a) {
        assert LandedInvariant(feed, s, a);
        assert a.id in s.table ==> RowInvariant(feed, s, a.id);
      }
    case DropRow(n) =>
      assert NodeInvariant(feed, s.landed, s.nodes[n]);
      OtherPartsKept(feed, s, s');
    case _ => OtherPartsKept(feed, s, s');
  }

  lemma OtherPartsKept(feed: Feed, s: State, s': State)
    requires Invariant(feed, s)
    requires s'.table == s.table && s'.landed == s.landed && s'.now >= s.now
    ensures forall id :: id in s'.table ==> RowInvariant(feed, s', id)
    ensures forall a :: a in s'.landed ==> LandedInvariant(feed, s', a)
  {
    forall id | id in s'.table ensures RowInvariant(feed, s', id) {
      assert RowInvariant(feed, s, id);
    }
    forall a | a in s'.landed ensures LandedInvariant(feed, s', a) {
      assert LandedInvariant(feed, s, a);
    }
  }

  lemma {:induction false} RunKeepsInvariant(feed: Feed, s: State, steps: seq<Step>)
    requires Invariant(feed, s) && Runs(s, steps) && ObeysFeed(feed, steps)
    ensures Invariant(feed, After(s, steps))
    decreases |steps|
  {
    if steps == [] {
    } else {
      StepKeepsInvariant(feed, s, steps[0]);
      RunKeepsInvariant(feed, Apply(s, steps[0]), steps[1..]);
    }
  }

  /** Every link of the chain is a landed message of this type that supersedes the one before it. */
  ghost predicate Chain(landed: set<Alert>, event: string, chain: seq<string>) {
    forall i :: 0 <= i < |chain| - 1 ==> SupersededBy(landed, event, chain[i], chain[i + 1])
  }

  /** In a snapshot read now, or past its expiry. */
  ghost predicate ShownOrExpired(feed: Feed, s: State, id: string) {
    Active(s.table, s.now, id) || feed.expires(id) <= s.now
  }

  /** The same-type references between these messages run in no circle. */
  ghost predicate Acyclic(landed: set<Alert>) {
    forall event, chain :: |chain| > 1 && Chain(landed, event, chain) ==> chain[0] != chain[|chain| - 1]
  }

  ghost function Members(chain: seq<string>): set<string> {
    set id | id in chain
  }

  function Ids(landed: set<Alert>): set<string> {
    set a | a in landed :: a.id
  }

  lemma ChainExtends(landed: set<Alert>, event: string, chain: seq<string>, next: string)
    requires |chain| > 0 && Chain(landed, event, chain) && SupersededBy(landed, event, chain[|chain| - 1], next)
    ensures Chain(landed, event, chain + [next])
  {
    var more := chain + [next];
    forall i | 0 <= i < |more| - 1 ensures SupersededBy(landed, event, more[i], more[i + 1]) {
      if i < |chain| - 1 {
        assert SupersededBy(landed, event, chain[i], chain[i + 1]);
      }
    }
  }

  lemma ChainSuffix(landed: set<Alert>, event: string, chain: seq<string>, j: nat)
    requires j < |chain| && Chain(landed, event, chain)
    ensures Chain(landed, event, chain[j..])
  {
    forall i | 0 <= i < |chain| - j - 1 ensures SupersededBy(landed, event, chain[j..][i], chain[j..][i + 1]) {
      assert SupersededBy(landed, event, chain[j + i], chain[j + i + 1]);
    }
  }

  /** A superseder of the end that stands on the chain already closes a circle. */
  lemma ClosesCircle(landed: set<Alert>, event: string, chain: seq<string>, next: string)
    requires |chain| > 0 && Chain(landed, event, chain) && next in chain
    requires SupersededBy(landed, event, chain[|chain| - 1], next)
    ensures !Acyclic(landed)
  {
    var j: nat :| j < |chain| && chain[j] == next;
    ChainExtends(landed, event, chain, next);
    ChainSuffix(landed, event, chain + [next], j);
    var circle := (chain + [next])[j..];
    assert |circle| > 1 && circle[0] == circle[|circle| - 1];
  }

  /** Following superseders from the end of a chain; the landed ids not on it yet run out. */
  lemma FollowChain(feed: Feed, s: State, path: seq<string>) returns (chain: seq<string>)
    requires Invariant(feed, s) && Acyclic(s.landed)
    requires |path| > 0 && Chain(s.landed, feed.event(path[0]), path)
    requires
      var id := path[|path| - 1];
      (id in s.table || feed.expires(id) < s.now) && feed.event(id) == feed.event(path[0])
    ensures |chain| > 0 && chain[0] == path[0] && Chain(s.landed, feed.event(path[0]), chain)
    ensures ShownOrExpired(feed, s, chain[|chain| - 1])
    decreases |Ids(s.landed) - Members(path)|
  {
    var id, event := path[|path| - 1], feed.event(path[0]);
    if ShownOrExpired(feed, s, id) {
      return path;
    }
    var next := NextSuperseder(feed, s, id);
    ChainExtends(s.landed, event, path, next);
    if next in path {
      ClosesCircle(s.landed, event, path, next);
    }
    FewerLeft(Ids(s.landed), path, next);
    hide *;
    chain := FollowChain(feed, s, path + [next]);
  }

  /** What is neither shown nor expired is retired, and so has a landed superseder of its type. */
  lemma NextSuperseder(feed: Feed, s: State, id: string) returns (next: string)
    requires Invariant(feed, s) && !ShownOrExpired(feed, s, id) && (id in s.table || feed.expires(id) < s.now)
    ensures SupersededBy(s.landed, feed.event(id), id, next) && next in Ids(s.landed)
    ensures (next in s.table || feed.expires(next) < s.now) && feed.event(next) == feed.event(id)
  {
    assert RowInvariant(feed, s, id);
    var a :| a in s.landed && a.event == feed.event(id) && id in a.references && id != "";
    assert LandedInvariant(feed, s, a);
    next := a.id;
  }

  lemma FewerLeft(ids: set<string>, path: seq<string>, next: string)
    requires next in ids && next !in path
    ensures |ids - Members(path + [next])| < |ids - Members(path)|
  {
    assert next in ids - Members(path) && next !in ids - Members(path + [next]);
    SmallerSet(ids - Members(path + [next]), ids - Members(path));
  }

  lemma SmallerSet<T>(a: set<T>, b: set<T>)
    requires a < b
    ensures |a| < |b|
  {
    assert b == a + (b - a) && |b - a| > 0;
  }

  /** From this id a chain of landed superseders leads to a message that is shown or has expired. */
  ghost predicate Kept(feed: Feed, s: State, id: string) {
    exists chain: seq<string> ::
      && |chain| > 0 && chain[0] == id && Chain(s.landed, feed.event(id), chain)
      && ShownOrExpired(feed, s, chain[|chain| - 1])
  }

  /** Every landed message and every row of the table, the retired ones included. */
  ghost predicate Known(s: State, id: string) {
    id in s.table || id in Ids(s.landed)
  }

  /**
   No superseded storm is lost. In every run whose landed references run in no circle, from every landed
   message and every row a finite chain of landed messages of one type, each superseding the one before,
   leads to a message that a snapshot read now shows or whose expiry has passed.
   */
  lemma NoStormIsLost(feed: Feed, start: State, steps: seq<Step>, id: string)
    requires Initial(start) && Runs(start, steps) && ObeysFeed(feed, steps)
    requires Acyclic(After(start, steps).landed) && Known(After(start, steps), id)
    ensures Kept(feed, After(start, steps), id)
  {
    var s := After(start, steps);
    RunKeepsInvariant(feed, start, steps);
    if id !in s.table {
      var a :| a in s.landed && a.id == id;
      assert LandedInvariant(feed, s, a);
    }
    var chain := FollowChain(feed, s, [id]);
  }

  /** References to strictly earlier messages run in no circle. */
  lemma EarlierReferencesAreAcyclic(sent: string -> int, landed: set<Alert>)
    requires forall a, id :: a in landed && id in a.references && id != "" ==> sent(id) < sent(a.id)
    ensures Acyclic(landed)
  {
    forall event, chain | |chain| > 1 && Chain(landed, event, chain) ensures chain[0] != chain[|chain| - 1] {
      ChainRises(sent, landed, event, chain);
    }
  }

  lemma {:induction false} ChainRises(sent: string -> int, landed: set<Alert>, event: string, chain: seq<string>)
    requires forall a, id :: a in landed && id in a.references && id != "" ==> sent(id) < sent(a.id)
    requires |chain| > 1 && Chain(landed, event, chain)
    ensures sent(chain[0]) < sent(chain[|chain| - 1])
  {
    assert SupersededBy(landed, event, chain[0], chain[1]);
    if |chain| == 2 {
    } else {
      ChainSuffix(landed, event, chain, 1);
      ChainRises(sent, landed, event, chain[1..]);
    }
  }
}
