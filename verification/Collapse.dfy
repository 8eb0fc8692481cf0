/**
 Snapshot rows and the removal of superseded duplicates (internal/store/collapse.go).
 */
module Collapse {
  import opened Common
  import opened Text
  import opened Warnings

  /** One alert of the snapshot; `eventID` is empty when the row carries no VTEC. */
  datatype ActiveAlert = ActiveAlert(
    nwsID: string,
    eventType: string,
    areaDesc: string,
    effectiveAt: Time,
    expiresAt: Time,
    eventID: string,
    states: seq<string>,
    tags: Option<WarningTags>,
    tornado: Option<TornadoDetection>)

  // ----- laterIssuance -----

  predicate LaterIssuance(candidate: ActiveAlert, incumbent: ActiveAlert) {
    if candidate.effectiveAt != incumbent.effectiveAt then candidate.effectiveAt > incumbent.effectiveAt
    else if candidate.expiresAt != incumbent.expiresAt then candidate.expiresAt > incumbent.expiresAt
    else Less(incumbent.nwsID, candidate.nwsID)
  }

  lemma LaterIsTransitive(a: ActiveAlert, b: ActiveAlert, c: ActiveAlert)
    ensures LaterIssuance(a, b) && LaterIssuance(b, c) ==> LaterIssuance(a, c)
    ensures LaterIssuance(a, b) && !LaterIssuance(c, b) ==> !LaterIssuance(c, a)
    ensures !LaterIssuance(a, b) && !LaterIssuance(b, c) ==> !LaterIssuance(a, c)
  {
    LaterIsAsymmetric(a, b);
    LaterIsAsymmetric(b, c);
    LaterIsAsymmetric(a, c);
    forall x, y, z | x in {a, b, c} && y in {a, b, c} && z in {a, b, c}
                     && Less(x.nwsID, y.nwsID) && Less(y.nwsID, z.nwsID)
      ensures Less(x.nwsID, z.nwsID)
    {
      LessIsTransitive(x.nwsID, y.nwsID, z.nwsID);
    }
  }

  /** Strict, and total up to equal issue times and ids. */
  lemma LaterIsAsymmetric(a: ActiveAlert, b: ActiveAlert)
    ensures !(LaterIssuance(a, b) && LaterIssuance(b, a))
    ensures LaterIssuance(a, b) || LaterIssuance(b, a) || a.nwsID == b.nwsID
  {
    LessIsStrict(a.nwsID, b.nwsID);
    LessIsTotal(a.nwsID, b.nwsID);
  }

  /** Later effect wins; on a tie later expiry, and on a tie of both the greater id. */
  lemma LaterByTime(a: ActiveAlert, b: ActiveAlert)
    ensures a.effectiveAt > b.effectiveAt ==> LaterIssuance(a, b)
    ensures a.effectiveAt == b.effectiveAt && a.expiresAt > b.expiresAt ==> LaterIssuance(a, b)
    ensures a.effectiveAt == b.effectiveAt && a.expiresAt == b.expiresAt ==>
      (LaterIssuance(a, b) <==> Less(b.nwsID, a.nwsID))
    ensures LaterIssuance(a, b) ==> a.effectiveAt >= b.effectiveAt
    ensures LaterIssuance(a, b) && a.effectiveAt == b.effectiveAt ==> a.expiresAt >= b.expiresAt
  {}

  // ----- keys -----

  /** The logical warning a row belongs to. */
  datatype Key = Key(eventID: string, eventType: string, areaDesc: string)

  function KeyOf(a: ActiveAlert): Key {
    Key(a.eventID, a.eventType, a.areaDesc)
  }

  function JoinKey(k: Key): string {
    k.eventID + ['\0'] + k.eventType + ['\0'] + k.areaDesc
  }

  predicate NulFree(a: ActiveAlert) {
    '\0' !in a.eventID && '\0' !in a.eventType && '\0' !in a.areaDesc
  }

  /** The joined text keeps the three fields apart, since none of them holds a NUL. */
  lemma JoinKeyInjective(a: ActiveAlert, b: ActiveAlert)
    requires NulFree(a) && NulFree(b)
    ensures JoinKey(KeyOf(a)) == JoinKey(KeyOf(b)) <==> KeyOf(a) == KeyOf(b)
  {
    SplitJoined(a);
    SplitJoined(b);
  }

  lemma SplitJoined(a: ActiveAlert)
    requires NulFree(a)
    ensures Split(JoinKey(KeyOf(a)), '\0') == [a.eventID, a.eventType, a.areaDesc]
  {
    var tail := a.eventType + ['\0'] + a.areaDesc;
    assert JoinKey(KeyOf(a)) == a.eventID + ['\0'] + tail;
    SplitAtSeparator(a.eventID, tail, '\0');
    SplitAtSeparator(a.eventType, a.areaDesc, '\0');
    SplitWithout(a.areaDesc, '\0');
  }

  // ----- the specification: group, and take the latest of each group -----

  /** No VTEC identity, or the first row of its group. */
  predicate Leads(alerts: seq<ActiveAlert>, i: nat)
    requires i < |alerts|
  {
    alerts[i].eventID == "" || forall j :: 0 <= j < i ==> KeyOf(alerts[j]) != KeyOf(alerts[i])
  }

  /** The positions of the rows that lead, in order. */
  function Leaders(alerts: seq<ActiveAlert>, n: nat): (s: seq<nat>)
    requires n <= |alerts|
    ensures forall p :: 0 <= p < |s| ==> s[p] < n
  {
    if n == 0 then []
    else if Leads(alerts, n - 1) then Leaders(alerts, n - 1) + [n - 1]
    else Leaders(alerts, n - 1)
  }

  lemma {:induction false} LeadersMeaning(alerts: seq<ActiveAlert>, n: nat)
    requires n <= |alerts|
    ensures
      var s := Leaders(alerts, n);
      && (forall p :: 0 <= p < |s| ==> Leads(alerts, s[p]))
      && (forall i: nat :: i < n && Leads(alerts, i) ==> i in s)
      && (forall p, q :: 0 <= p < q < |s| ==> s[p] < s[q])
  {
    if n == 0 {
    } else {
      LeadersMeaning(alerts, n - 1);
      var before, s := Leaders(alerts, n - 1), Leaders(alerts, n);
      assert s == if Leads(alerts, n - 1) then before + [n - 1] else before;
      forall i: nat | i < n && Leads(alerts, i) ensures i in s {
        if i < n - 1 {
          assert i in before;
        } else {
          assert s[|before|] == i;
        }
      }
      assert forall p :: 0 <= p < |before| ==> s[p] == before[p];
    }
  }

  /** Whether `w` stands for its group: no row of the group was issued later. */
  predicate IsLatest(alerts: seq<ActiveAlert>, w: ActiveAlert) {
    w in alerts && forall b :: b in alerts && KeyOf(b) == KeyOf(w) ==> !LaterIssuance(b, w)
  }

  /** The latest issuance among the first `n` rows with key `k`; of equals, the first. */
  function Latest(alerts: seq<ActiveAlert>, n: nat, k: Key): (w: Option<ActiveAlert>)
    requires n <= |alerts|
    ensures w.None? <==> forall j :: 0 <= j < n ==> KeyOf(alerts[j]) != k
    ensures w.Some? ==> w.value in alerts[..n] && KeyOf(w.value) == k
  {
    if n == 0 then None
    else
      var w := Latest(alerts, n - 1, k);
      var a := alerts[n - 1];
      if KeyOf(a) == k && (w.None? || LaterIssuance(a, w.value)) then Some(a) else w
  }

  lemma {:induction false} LatestIsMaximal(alerts: seq<ActiveAlert>, n: nat, k: Key)
    requires n <= |alerts| && Latest(alerts, n, k).Some?
    ensures forall j :: 0 <= j < n && KeyOf(alerts[j]) == k ==> !LaterIssuance(alerts[j], Latest(alerts, n, k).value)
  {
    var w, a := Latest(alerts, n - 1, k), alerts[n - 1];
    if w.Some? {
      LatestIsMaximal(alerts, n - 1, k);
      LaterIsAsymmetric(a, a);
      forall j | 0 <= j < n && KeyOf(alerts[j]) == k
        ensures !LaterIssuance(alerts[j], Latest(alerts, n, k).value)
      {
        LaterIsTransitive(a, w.value, alerts[j]);
      }
    } else {
      LaterIsAsymmetric(a, a);
    }
  }

  /** What stands at the place of the row at `i`, which leads. */
  function Survivor(alerts: seq<ActiveAlert>, n: nat, i: nat): ActiveAlert
    requires i < n <= |alerts|
  {
    if alerts[i].eventID == "" then alerts[i] else Latest(alerts, n, KeyOf(alerts[i])).value
  }

  function Collapsed(alerts: seq<ActiveAlert>, n: nat): seq<ActiveAlert>
    requires n <= |alerts|
  {
    var leaders := Leaders(alerts, n);
    seq(|leaders|, p requires 0 <= p < |leaders| => Survivor(alerts, n, leaders[p]))
  }

  // ----- the loop -----

  /** Where each group's survivor stands in the output. */
  ghost predicate WinnersAgree(alerts: seq<ActiveAlert>, leaders: seq<nat>, winners: map<string, nat>)
    requires forall p :: 0 <= p < |leaders| ==> leaders[p] < |alerts|
  {
    && (forall k :: k in winners ==>
          && winners[k] < |leaders|
          && alerts[leaders[winners[k]]].eventID != ""
          && k == JoinKey(KeyOf(alerts[leaders[winners[k]]])))
    && (forall p :: 0 <= p < |leaders| && alerts[leaders[p]].eventID != "" ==>
          JoinKey(KeyOf(alerts[leaders[p]])) in winners)
  }

  lemma WinnersGrow(alerts: seq<ActiveAlert>, leaders: seq<nat>, winners: map<string, nat>, i: nat)
    requires i < |alerts| && forall p :: 0 <= p < |leaders| ==> leaders[p] < |alerts|
    requires WinnersAgree(alerts, leaders, winners)
    ensures alerts[i].eventID == "" ==> WinnersAgree(alerts, leaders + [i], winners)
    ensures alerts[i].eventID != "" ==>
      WinnersAgree(alerts, leaders + [i], winners[JoinKey(KeyOf(alerts[i])) := |leaders|])
  {
    var more := leaders + [i];
    assert more[|leaders|] == i;
    assert forall p :: 0 <= p < |leaders| ==> more[p] == leaders[p];
  }

  lemma {:induction false} LeaderOfGroup(alerts: seq<ActiveAlert>, n: nat, j: nat) returns (p: nat)
    requires j < n <= |alerts| && alerts[j].eventID != ""
    ensures p < |Leaders(alerts, n)| && KeyOf(alerts[Leaders(alerts, n)[p]]) == KeyOf(alerts[j])
    ensures Leaders(alerts, n)[p] <= j
  {
    LeadersMeaning(alerts, n);
    if Leads(alerts, j) {
      assert j in Leaders(alerts, n);
      p :| p < |Leaders(alerts, n)| && Leaders(alerts, n)[p] == j;
    } else {
      var i :| 0 <= i < j && KeyOf(alerts[i]) == KeyOf(alerts[j]);
      p := LeaderOfGroup(alerts, n, i);
    }
  }

  /** Two leaders never share a group. */
  lemma LeadersApart(alerts: seq<ActiveAlert>, n: nat, p: nat, q: nat)
    requires n <= |alerts| && p < |Leaders(alerts, n)| && q < |Leaders(alerts, n)|
    requires alerts[Leaders(alerts, n)[p]].eventID != ""
    requires KeyOf(alerts[Leaders(alerts, n)[p]]) == KeyOf(alerts[Leaders(alerts, n)[q]])
    ensures p == q
  {
    LeadersMeaning(alerts, n);
    var leaders := Leaders(alerts, n);
    assert leaders[p] in leaders && leaders[q] in leaders;
  }

  lemma SurvivorOneMore(alerts: seq<ActiveAlert>, n: nat, i: nat)
    requires i < n < |alerts| && Leads(alerts, i)
    ensures
      var w := Survivor(alerts, n, i);
      Survivor(alerts, n + 1, i)
      == if alerts[i].eventID != "" && KeyOf(alerts[i]) == KeyOf(alerts[n]) && LaterIssuance(alerts[n], w)
         then alerts[n] else w
    ensures alerts[i].eventID != "" && KeyOf(alerts[i]) == KeyOf(alerts[n]) ==> !Leads(alerts, n)
  {}

  lemma LeadersOneMore(alerts: seq<ActiveAlert>, n: nat)
    requires n < |alerts|
    ensures Leaders(alerts, n + 1) == if Leads(alerts, n) then Leaders(alerts, n) + [n] else Leaders(alerts, n)
  {}

  lemma NewLeaderSurvives(alerts: seq<ActiveAlert>, n: nat)
    requires n < |alerts| && Leads(alerts, n)
    ensures Survivor(alerts, n + 1, n) == alerts[n]
  {}

  /** The survivor at place `q` after one more row, when `p` is the place of that row's group. */
  lemma PlaceOneMore(alerts: seq<ActiveAlert>, n: nat, p: nat, q: nat)
    requires n < |alerts| && q < |Leaders(alerts, n)|
    requires Leads(alerts, n) || (p < |Leaders(alerts, n)| && KeyOf(alerts[Leaders(alerts, n)[p]]) == KeyOf(alerts[n]))
    ensures
      var i := Leaders(alerts, n)[q];
      Survivor(alerts, n + 1, i)
      == if !Leads(alerts, n) && q == p && LaterIssuance(alerts[n], Survivor(alerts, n, i)) then alerts[n]
         else Survivor(alerts, n, i)
  {
    var i := Leaders(alerts, n)[q];
    LeadersMeaning(alerts, n);
    SurvivorOneMore(alerts, n, i);
    if alerts[i].eventID != "" && KeyOf(alerts[i]) == KeyOf(alerts[n]) {
      LeadersApart(alerts, n, q, p);
    }
  }

  lemma CollapsedPlaces(alerts: seq<ActiveAlert>, n: nat)
    requires n <= |alerts|
    ensures |Collapsed(alerts, n)| == |Leaders(alerts, n)|
    ensures forall q :: 0 <= q < |Leaders(alerts, n)| ==>
      Collapsed(alerts, n)[q] == Survivor(alerts, n, Leaders(alerts, n)[q])
  {}

  lemma AppendLeader(alerts: seq<ActiveAlert>, n: nat)
    requires n < |alerts| && Leads(alerts, n)
    ensures Collapsed(alerts, n + 1) == Collapsed(alerts, n) + [alerts[n]]
  {
    CollapsedPlaces(alerts, n);
    CollapsedPlaces(alerts, n + 1);
    LeadersOneMore(alerts, n);
    NewLeaderSurvives(alerts, n);
    var leaders, expected := Leaders(alerts, n), Collapsed(alerts, n) + [alerts[n]];
    forall q | 0 <= q < |leaders| ensures Collapsed(alerts, n + 1)[q] == expected[q] {
      hide Leaders;
      hide Leads;
      hide Survivor;
      hide Collapsed;
      PlaceOneMore(alerts, n, 0, q);
    }
  }

  lemma MergeIntoGroup(alerts: seq<ActiveAlert>, n: nat, p: nat)
    requires n < |alerts| && !Leads(alerts, n)
    requires p < |Leaders(alerts, n)| && KeyOf(alerts[Leaders(alerts, n)[p]]) == KeyOf(alerts[n])
    ensures
      var out := Collapsed(alerts, n);
      Collapsed(alerts, n + 1) == if LaterIssuance(alerts[n], out[p]) then out[p := alerts[n]] else out
  {
    CollapsedPlaces(alerts, n);
    CollapsedPlaces(alerts, n + 1);
    LeadersOneMore(alerts, n);
    var leaders, out := Leaders(alerts, n), Collapsed(alerts, n);
    var expected := if LaterIssuance(alerts[n], out[p]) then out[p := alerts[n]] else out;
    forall q | 0 <= q < |leaders| ensures Collapsed(alerts, n + 1)[q] == expected[q] {
      hide Leaders;
      hide Leads;
      hide Survivor;
      hide Collapsed;
      hide LaterIssuance;
      PlaceOneMore(alerts, n, p, q);
    }
  }

  /** One more row: it joins the output, replaces its group's survivor, or is dropped. */
  lemma CollapseOneMore(alerts: seq<ActiveAlert>, n: nat, p: nat)
    requires n < |alerts|
    requires Leads(alerts, n) || (p < |Leaders(alerts, n)| && KeyOf(alerts[Leaders(alerts, n)[p]]) == KeyOf(alerts[n]))
    ensures
      var out := Collapsed(alerts, n);
      var a := alerts[n];
      Collapsed(alerts, n + 1)
      == if Leads(alerts, n) then out + [a]
         else if LaterIssuance(a, out[p]) then out[p := a]
         else out
  {
    if Leads(alerts, n) {
      AppendLeader(alerts, n);
    } else {
      MergeIntoGroup(alerts, n, p);
    }
  }

  /** A key the map does not hold belongs to no earlier row. */
  lemma NoLeaderMeansLeads(alerts: seq<ActiveAlert>, i: nat, winners: map<string, nat>)
    requires i < |alerts| && alerts[i].eventID != "" && WinnersAgree(alerts, Leaders(alerts, i), winners)
    requires JoinKey(KeyOf(alerts[i])) !in winners
    ensures Leads(alerts, i)
  {
    if j: nat :| j < i && KeyOf(alerts[j]) == KeyOf(alerts[i]) {
      var p := LeaderOfGroup(alerts, i, j);
      assert false;
    }
  }

  /** The state of the loop after `n` rows. */
  ghost predicate LoopState(alerts: seq<ActiveAlert>, n: nat, winners: map<string, nat>, out: seq<ActiveAlert>)
    requires n <= |alerts|
  {
    out == Collapsed(alerts, n) && WinnersAgree(alerts, Leaders(alerts, n), winners)
  }

  lemma NewGroup(alerts: seq<ActiveAlert>, n: nat, winners: map<string, nat>, out: seq<ActiveAlert>)
    requires n < |alerts| && LoopState(alerts, n, winners, out)
    requires alerts[n].eventID == "" || JoinKey(KeyOf(alerts[n])) !in winners
    ensures LoopState(alerts, n + 1,
                      if alerts[n].eventID == "" then winners else winners[JoinKey(KeyOf(alerts[n])) := |out|],
                      out + [alerts[n]])
  {
    if alerts[n].eventID != "" {
      NoLeaderMeansLeads(alerts, n, winners);
    }
    CollapseOneMore(alerts, n, 0);
    WinnersGrow(alerts, Leaders(alerts, n), winners, n);
  }

  lemma KnownGroup(alerts: seq<ActiveAlert>, n: nat, winners: map<string, nat>, out: seq<ActiveAlert>)
    requires forall i :: 0 <= i < |alerts| ==> NulFree(alerts[i])
    requires n < |alerts| && LoopState(alerts, n, winners, out)
    requires alerts[n].eventID != "" && JoinKey(KeyOf(alerts[n])) in winners
    ensures
      var idx := winners[JoinKey(KeyOf(alerts[n]))];
      && idx < |out|
      && LoopState(alerts, n + 1, winners, if LaterIssuance(alerts[n], out[idx]) then out[idx := alerts[n]] else out)
  {
    var leaders, idx := Leaders(alerts, n), winners[JoinKey(KeyOf(alerts[n]))];
    JoinKeyInjective(alerts[n], alerts[leaders[idx]]);
    assert !Leads(alerts, n);
    CollapseOneMore(alerts, n, idx);
  }

  method CollapseByEvent(alerts: seq<ActiveAlert>) returns (out: seq<ActiveAlert>)
    requires forall i :: 0 <= i < |alerts| ==> NulFree(alerts[i])
    ensures out == Collapsed(alerts, |alerts|)
  {
    var winners: map<string, nat> := map[];
    out := [];
    for i := 0 to |alerts|
      invariant LoopState(alerts, i, winners, out)
    {
      var a := alerts[i];
      if a.eventID == "" {
        NewGroup(alerts, i, winners, out);
        out := out + [a];
        continue;
      }
      var key := JoinKey(KeyOf(a));
      if key !in winners {
        NewGroup(alerts, i, winners, out);
        winners := winners[key := |out|];
        out := out + [a];
        continue;
      }
      KnownGroup(alerts, i, winners, out);
      var idx := winners[key];
      if LaterIssuance(a, out[idx]) {
        out := out[idx := a];
      }
    }
  }

  // ----- what collapsing promises -----

  /** Position `p` of the output holds the survivor of the group led by the row at `Leaders[p]`. */
  lemma SurvivorAt(alerts: seq<ActiveAlert>, p: nat)
    requires p < |Collapsed(alerts, |alerts|)|
    ensures
      var i := Leaders(alerts, |alerts|)[p];
      var w := Collapsed(alerts, |alerts|)[p];
      && w in alerts && KeyOf(w) == KeyOf(alerts[i])
      && (alerts[i].eventID == "" ==> w == alerts[i])
      && (alerts[i].eventID != "" ==> IsLatest(alerts, w))
  {
    var i := Leaders(alerts, |alerts|)[p];
    if alerts[i].eventID != "" {
      LatestIsMaximal(alerts, |alerts|, KeyOf(alerts[i]));
      assert alerts[..|alerts|] == alerts;
    }
  }

  /** Each group is represented once. */
  lemma GroupsAppearOnce(alerts: seq<ActiveAlert>, p: nat, q: nat)
    requires
      var out := Collapsed(alerts, |alerts|);
      && p < |out| && q < |out| && out[p].eventID != ""
      && out[p].eventID == out[q].eventID && out[p].eventType == out[q].eventType && out[p].areaDesc == out[q].areaDesc
    ensures p == q
  {
    SurvivorAt(alerts, p);
    SurvivorAt(alerts, q);
    LeadersApart(alerts, |alerts|, p, q);
  }

  /** Every row is represented by a row of the same identity, type and footprint that is not older. */
  lemma RowIsRepresented(alerts: seq<ActiveAlert>, a: ActiveAlert) returns (w: ActiveAlert)
    requires a in alerts
    ensures w in Collapsed(alerts, |alerts|) && KeyOf(w) == KeyOf(a) && !LaterIssuance(a, w)
    ensures w.eventID == a.eventID && w.eventType == a.eventType && w.areaDesc == a.areaDesc
    ensures a.eventID == "" ==> w == a
  {
    var n, out := |alerts|, Collapsed(alerts, |alerts|);
    LeadersMeaning(alerts, n);
    var j: nat :| j < n && alerts[j] == a;
    LaterIsAsymmetric(a, a);
    if a.eventID == "" {
      assert Leads(alerts, j);
      var p :| 0 <= p < |Leaders(alerts, n)| && Leaders(alerts, n)[p] == j;
      assert out[p] == a;
      return a;
    }
    var p := LeaderOfGroup(alerts, n, j);
    SurvivorAt(alerts, p);
    w := out[p];
  }

  /** An id names one row. */
  predicate UniqueIds(alerts: seq<ActiveAlert>) {
    forall a, b :: a in alerts && b in alerts && a.nwsID == b.nwsID ==> a == b
  }

  /** Which rows survive, said without order: those with no VTEC identity and the latest of each group. */
  lemma SurvivorsExactly(alerts: seq<ActiveAlert>, a: ActiveAlert)
    requires UniqueIds(alerts)
    ensures a in Collapsed(alerts, |alerts|) <==> a in alerts && (a.eventID == "" || IsLatest(alerts, a))
  {
    var out := Collapsed(alerts, |alerts|);
    if a in out {
      var p :| 0 <= p < |out| && out[p] == a;
      SurvivorAt(alerts, p);
    }
    if a in alerts && (a.eventID == "" || IsLatest(alerts, a)) {
      var w := RowIsRepresented(alerts, a);
      var p :| 0 <= p < |out| && out[p] == w;
      SurvivorAt(alerts, p);
      LaterIsAsymmetric(a, w);
    }
  }

  predicate SameWarning(a: ActiveAlert, b: ActiveAlert) {
    a.eventID == b.eventID && a.eventType == b.eventType && a.areaDesc == b.areaDesc
  }

  /** Of the rows with this row's identity, type and area none was issued after it, told by the columns. */
  predicate NoneAfter(alerts: seq<ActiveAlert>, w: ActiveAlert) {
    forall b :: b in alerts && SameWarning(b, w) ==>
      && b.effectiveAt <= w.effectiveAt
      && (b.effectiveAt == w.effectiveAt ==>
            && b.expiresAt <= w.expiresAt
            && (b.expiresAt == w.expiresAt ==> !Less(w.nwsID, b.nwsID)))
  }

  /** Which rows survive, told by the columns: those with no VTEC identity, and in each group the last issued. */
  lemma SurvivorIsLastIssued(alerts: seq<ActiveAlert>, a: ActiveAlert)
    requires UniqueIds(alerts)
    ensures a in Collapsed(alerts, |alerts|) <==> a in alerts && (a.eventID == "" || NoneAfter(alerts, a))
  {
    SurvivorsExactly(alerts, a);
    forall b | b in alerts ensures LaterIssuance(b, a) <==>
      || b.effectiveAt > a.effectiveAt
      || (b.effectiveAt == a.effectiveAt && b.expiresAt > a.expiresAt)
      || (b.effectiveAt == a.effectiveAt && b.expiresAt == a.expiresAt && Less(a.nwsID, b.nwsID))
    {
      LaterByTime(b, a);
    }
    hide Collapsed;
    hide LaterIssuance;
    hide Less;
  }

  /** Survivors stand in the order in which their groups were first seen. */
  lemma FirstSeenOrder(alerts: seq<ActiveAlert>) returns (at: seq<nat>)
    ensures |at| == |Collapsed(alerts, |alerts|)|
    ensures forall p, q :: 0 <= p < q < |at| ==> at[p] < at[q]
    ensures forall p :: 0 <= p < |at| ==>
      var w := Collapsed(alerts, |alerts|)[p];
      && at[p] < |alerts|
      && (if w.eventID == "" then alerts[at[p]] == w
          else SameWarning(alerts[at[p]], w) && forall j :: 0 <= j < at[p] ==> !SameWarning(alerts[j], w))
  {
    at := Leaders(alerts, |alerts|);
    LeadersMeaning(alerts, |alerts|);
    forall p | 0 <= p < |at|
      ensures KeyOf(Collapsed(alerts, |alerts|)[p]) == KeyOf(alerts[at[p]]) && Leads(alerts, at[p])
      ensures alerts[at[p]].eventID == "" ==> Collapsed(alerts, |alerts|)[p] == alerts[at[p]]
    {
      SurvivorAt(alerts, p);
    }
    hide Leaders;
    hide Collapsed;
  }

  /** The survivors do not depend on the order of the rows. */
  lemma CollapseIgnoresOrder(alerts: seq<ActiveAlert>, permuted: seq<ActiveAlert>, a: ActiveAlert)
    requires UniqueIds(alerts) && multiset(alerts) == multiset(permuted)
    ensures a in Collapsed(alerts, |alerts|) <==> a in Collapsed(permuted, |permuted|)
  {
    assert forall x :: x in alerts <==> x in multiset(alerts);
    assert forall x :: x in permuted <==> x in multiset(permuted);
    SurvivorsExactly(alerts, a);
    SurvivorsExactly(permuted, a);
  }

  lemma {:induction false} AllLeadCollapse(alerts: seq<ActiveAlert>, n: nat)
    requires n <= |alerts| && forall i: nat :: i < n ==> Leads(alerts, i)
    ensures Collapsed(alerts, n) == alerts[..n]
  {
    if n == 0 {
    } else {
      var m := n - 1;
      AllLeadCollapse(alerts, m);
      assert Leads(alerts, m);
      AppendLeader(alerts, m);
      assert alerts[..m] + [alerts[m]] == alerts[..n];
    }
  }

  /** Collapsing twice is collapsing once. */
  lemma CollapseIdempotent(alerts: seq<ActiveAlert>)
    ensures
      var out := Collapsed(alerts, |alerts|);
      Collapsed(out, |out|) == out
  {
    var out := Collapsed(alerts, |alerts|);
    forall p: nat | p < |out| ensures Leads(out, p) {
      if out[p].eventID != "" {
        forall q | 0 <= q < p ensures KeyOf(out[q]) != KeyOf(out[p]) {
          if KeyOf(out[q]) == KeyOf(out[p]) {
            GroupsAppearOnce(alerts, p, q);
          }
        }
      }
    }
    AllLeadCollapse(out, |out|);
    assert out[..|out|] == out;
  }

  /** `ORDER BY effective_at DESC`. */
  predicate NewestFirst(alerts: seq<ActiveAlert>) {
    forall i, j :: 0 <= i < j < |alerts| ==> alerts[i].effectiveAt >= alerts[j].effectiveAt
  }

  /** In rows sorted newest first a survivor was issued exactly when its leader was. */
  lemma SurvivorIssuedWithLeader(alerts: seq<ActiveAlert>, p: nat)
    requires NewestFirst(alerts) && p < |Collapsed(alerts, |alerts|)|
    ensures Collapsed(alerts, |alerts|)[p].effectiveAt == alerts[Leaders(alerts, |alerts|)[p]].effectiveAt
  {
    SurvivorAt(alerts, p);
    LeadersMeaning(alerts, |alerts|);
    var i, w := Leaders(alerts, |alerts|)[p], Collapsed(alerts, |alerts|)[p];
    assert Leads(alerts, i);
    hide Leaders;
    hide Collapsed;
    if alerts[i].eventID != "" {
      var j :| 0 <= j < |alerts| && alerts[j] == w;
      assert !LaterIssuance(alerts[i], w);
      assert j >= i;
    }
  }

  /** Replacing survivors in place keeps the order. */
  lemma CollapseKeepsOrder(alerts: seq<ActiveAlert>)
    requires NewestFirst(alerts)
    ensures NewestFirst(Collapsed(alerts, |alerts|))
  {
    var out, leaders := Collapsed(alerts, |alerts|), Leaders(alerts, |alerts|);
    LeadersMeaning(alerts, |alerts|);
    assert |out| == |leaders|;
    hide Collapsed;
    hide Leaders;
    forall p: nat, q: nat | p < q < |out| ensures out[p].effectiveAt >= out[q].effectiveAt {
      SurvivorIssuedWithLeader(alerts, p);
      SurvivorIssuedWithLeader(alerts, q);
      assert leaders[p] < leaders[q];
    }
  }
}
