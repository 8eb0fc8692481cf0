/**
 The polled areas, an alert's states, and the per-state shards (cmd/ingest/main.go,
 internal/store/postgres.go, internal/poller/poller.go).
 */
module Areas {
  import opened Common
  import opened Text
  import opened Collapse

  predicate NoRepeats(s: seq<string>) {
    forall i, j :: 0 <= i < j < |s| ==> s[i] != s[j]
  }

  // ----- parseAreas -----

  /** `^[A-Z]{2}$`. */
  predicate IsStateCode(s: string) {
    |s| == 2 && IsUpper(s[0]) && IsUpper(s[1])
  }

  function CodeOf(token: string): string {
    ToUpper(TrimSpace(token))
  }

  /** Some token, without its outer spaces and in upper case, is this code. */
  predicate Gives(tokens: seq<string>, code: string) {
    exists token :: token in tokens && ToUpper(TrimSpace(token)) == code
  }

  /** The accepted codes in order, repeats included. */
  function AcceptedCodes(tokens: seq<string>, known: string -> bool): seq<string> {
    if tokens == [] then []
    else
      var rest, code := AcceptedCodes(tokens[..|tokens| - 1], known), CodeOf(tokens[|tokens| - 1]);
      if IsStateCode(code) && known(code) then rest + [code] else rest
  }

  /** `out` is `codes` with every repeat of an earlier code removed: `first[k]` is where `out[k]` first stands. */
  ghost predicate FirstOccurrences(codes: seq<string>, out: seq<string>, first: seq<nat>) {
    && |first| == |out|
    && (forall k :: 0 <= k < |out| ==>
          first[k] < |codes| && codes[first[k]] == out[k] && out[k] !in codes[..first[k]])
    && (forall k, m :: 0 <= k < m < |out| ==> first[k] < first[m])
    && (forall code :: code in codes ==> code in out)
  }

  /** The areas a node polls: known codes, each once, in the order first given; a blank setting means Wisconsin. */
  method ParseAreas(raw: string, known: string -> bool) returns (out: seq<string>, ghost first: seq<nat>)
    ensures NoRepeats(out)
    ensures TrimSpace(raw) == "" ==> out == ["WI"]
    ensures TrimSpace(raw) != "" ==> FirstOccurrences(AcceptedCodes(Split(raw, ','), known), out, first)
    ensures TrimSpace(raw) != "" ==> forall code :: code in out <==>
      |code| == 2 && 'A' <= code[0] <= 'Z' && 'A' <= code[1] <= 'Z' && known(code)
      && Gives(Split(raw, ','), code)
  {
    if TrimSpace(raw) == "" {
      return ["WI"], [0];
    }
    var tokens := Split(raw, ',');
    var seen: set<string> := {};
    out, first := [], [];
    for i := 0 to |tokens|
      invariant seen == set s | s in out
      invariant NoRepeats(out)
      invariant FirstOccurrences(AcceptedCodes(tokens[..i], known), out, first)
    {
      assert tokens[..i + 1][..i] == tokens[..i];
      ghost var codes := AcceptedCodes(tokens[..i], known);
      var code := CodeOf(tokens[i]);
      if !IsStateCode(code) || !known(code) {
        continue;
      }
      AppendCode(codes, out, first, code);
      if code in seen {
        continue;
      }
      seen := seen + {code};
      out, first := out + [code], first + [|codes|];
    }
    assert tokens[..|tokens|] == tokens;
    forall code ensures code in out <==> code in AcceptedCodes(tokens, known) {
    }
    AcceptedMembers(tokens, known);
  }

  lemma {:induction false} AcceptedMembers(tokens: seq<string>, known: string -> bool)
    ensures forall code :: code in AcceptedCodes(tokens, known) <==>
      |code| == 2 && 'A' <= code[0] <= 'Z' && 'A' <= code[1] <= 'Z' && known(code)
      && Gives(tokens, code)
  {
    hide ToUpper;
    hide TrimSpace;
    if tokens == [] {
    } else {
      var init, last := tokens[..|tokens| - 1], tokens[|tokens| - 1];
      AcceptedMembers(init, known);
      assert tokens == init + [last];
      forall code ensures Gives(tokens, code) <==> Gives(init, code) || CodeOf(last) == code {
        if CodeOf(last) == code {
          assert last in tokens;
        }
      }
    }
  }

  lemma AppendCode(codes: seq<string>, out: seq<string>, first: seq<nat>, code: string)
    requires FirstOccurrences(codes, out, first)
    ensures code in out ==> FirstOccurrences(codes + [code], out, first)
    ensures code !in out ==> FirstOccurrences(codes + [code], out + [code], first + [|codes|])
  {
    var more := codes + [code];
    assert forall k :: 0 <= k < |out| ==> more[..first[k]] == codes[..first[k]];
    assert more[..|codes|] == codes;
  }

  // ----- deriveStates -----

  function LastComma(s: string): (i: int)
    ensures -1 <= i < |s|
    ensures i >= 0 ==> s[i] == ','
    ensures forall k :: i < k < |s| ==> s[k] != ','
  {
    if s == "" then -1 else if s[|s| - 1] == ',' then |s| - 1 else LastComma(s[..|s| - 1])
  }

  /** The state a segment of the area description names after its last comma, if it is a known one. */
  function SegmentState(segment: string, known: string -> bool): Option<string> {
    var trimmed := TrimSpace(segment);
    var comma := LastComma(trimmed);
    if comma < 0 then None
    else
      var candidate := TrimSpace(trimmed[comma + 1..]);
      if |candidate| == 2 && known(ToUpper(candidate)) then Some(ToUpper(candidate)) else None
  }

  /** `tail` is what stands after the last comma of `s`. */
  predicate AfterLastComma(s: string, head: string, tail: string) {
    s == head + "," + tail && ',' !in tail
  }

  /** What a segment names: the two letters after its last comma, spaces apart, when they are a known state. */
  lemma SegmentStateExactly(segment: string, known: string -> bool, state: string)
    ensures SegmentState(segment, known) == Some(state) <==>
      |state| == 2 && known(state)
      && exists head, tail :: AfterLastComma(TrimSpace(segment), head, tail)
           && |TrimSpace(tail)| == 2 && ToUpper(TrimSpace(tail)) == state
  {
    var trimmed := TrimSpace(segment);
    var comma := LastComma(trimmed);
    hide TrimSpace;
    hide ToUpper;
    if comma >= 0 {
      assert AfterLastComma(trimmed, trimmed[..comma], trimmed[comma + 1..]);
    }
    forall head, tail | AfterLastComma(trimmed, head, tail)
      ensures comma == |head| && tail == trimmed[comma + 1..]
    {
      assert trimmed[|head|] == ',';
      assert forall k :: |head| < k < |trimmed| ==> trimmed[k] == tail[k - |head| - 1];
    }
    if SegmentState(segment, known) == Some(state) {
      UpperKeepsLength(TrimSpace(trimmed[comma + 1..]));
    }
  }

  lemma UpperKeepsLength(s: string)
    ensures |ToUpper(s)| == |s|
  {}

  predicate Resolves(codes: seq<string>, stateFor: string -> Option<string>, state: string) {
    exists i :: 0 <= i < |codes| && stateFor(codes[i]) == Some(state)
  }

  predicate Named(segments: seq<string>, known: string -> bool, state: string) {
    exists i :: 0 <= i < |segments| && SegmentState(segments[i], known) == Some(state)
  }

  predicate Ascending(s: seq<string>) {
    forall i, j :: 0 <= i < j < |s| ==> Less(s[i], s[j])
  }

  lemma AscendingHasNoRepeats(s: seq<string>)
    requires Ascending(s)
    ensures NoRepeats(s)
  {
    forall i, j | 0 <= i < j < |s| ensures s[i] != s[j] {
      LessIsStrict(s[i], s[j]);
    }
  }

  function Insert(s: seq<string>, x: string): seq<string> {
    if s == [] || Less(x, s[0]) then [x] + s else [s[0]] + Insert(s[1..], x)
  }

  lemma {:induction false} InsertKeepsAscending(s: seq<string>, x: string)
    requires Ascending(s) && x !in s
    ensures Ascending(Insert(s, x))
    ensures forall y :: y in Insert(s, x) <==> y in s || y == x
  {
    if s == [] {
    } else {
      LessIsTotal(x, s[0]);
      if Less(x, s[0]) {
        forall j | 1 <= j < |s| ensures Less(x, s[j]) {
          LessIsTransitive(x, s[0], s[j]);
        }
      } else {
        InsertKeepsAscending(s[1..], x);
        var rest := Insert(s[1..], x);
        forall j | 0 <= j < |rest| ensures Less(s[0], rest[j]) {
          assert rest[j] in rest;
        }
      }
    }
  }

  /** The states of the structured codes when any resolves, and else those the description names; in order. */
  ghost predicate Derived(out: seq<string>, same: seq<string>, areaDesc: string,
                          stateFor: string -> Option<string>, known: string -> bool)
  {
    && Ascending(out)
    && forall s :: s in out <==>
         if exists x :: Resolves(same, stateFor, x) then Resolves(same, stateFor, s)
         else areaDesc != "" && Named(Split(areaDesc, ';'), known, s)
  }

  lemma SomeMember(s: seq<string>)
    ensures s == [] || exists x :: x in s
  {
    if s != [] {
      assert s[0] in s;
    }
  }

  /** Ascending sequences with the same members are the same. */
  lemma {:induction false} AscendingIsDetermined(a: seq<string>, b: seq<string>)
    requires Ascending(a) && Ascending(b) && forall s :: s in a <==> s in b
    ensures a == b
  {
    if a == [] || b == [] {
      SomeMember(a);
      SomeMember(b);
    } else {
      assert a[0] in b;
      assert b[0] in a;
      var i :| 0 <= i < |b| && b[i] == a[0];
      var j :| 0 <= j < |a| && a[j] == b[0];
      LessIsStrict(a[0], b[0]);
      assert a[0] == b[0];
      forall s ensures s in a[1..] <==> s in b[1..] {
        SameTails(a, b, s);
        SameTails(b, a, s);
      }
      AscendingIsDetermined(a[1..], b[1..]);
      assert a == [a[0]] + a[1..] && b == [b[0]] + b[1..];
    }
  }

  lemma SameTails(a: seq<string>, b: seq<string>, s: string)
    requires a != [] && b != [] && a[0] == b[0] && Ascending(a) && Ascending(b)
    requires forall x :: x in a ==> x in b
    ensures s in a[1..] ==> s in b[1..]
  {
    if s in a[1..] {
      var i :| 1 <= i < |a| && a[i] == s;
      LessIsStrict(a[0], s);
      assert s in b && s != b[0];
    }
  }

  lemma DerivedIsUnique(a: seq<string>, b: seq<string>, same: seq<string>, areaDesc: string,
                        stateFor: string -> Option<string>, known: string -> bool)
    requires Derived(a, same, areaDesc, stateFor, known) && Derived(b, same, areaDesc, stateFor, known)
    ensures a == b
  {
    AscendingIsDetermined(a, b);
  }

  /** The known states of the structured codes, or else of the description: each once, in order. */
  method DeriveStates(same: seq<string>, areaDesc: string, stateFor: string -> Option<string>, known: string -> bool)
    returns (out: seq<string>, usedFallback: bool)
    ensures usedFallback <==> areaDesc != "" && forall s :: !Resolves(same, stateFor, s)
    ensures !usedFallback ==> forall s :: s in out <==> Resolves(same, stateFor, s)
    ensures usedFallback ==> forall s :: s in out <==> Named(Split(areaDesc, ';'), known, s)
    ensures Ascending(out) && NoRepeats(out) && Derived(out, same, areaDesc, stateFor, known)
  {
    var seen: set<string> := {};
    for i := 0 to |same|
      invariant forall s :: s in seen <==> Resolves(same[..i], stateFor, s)
    {
      var state := stateFor(same[i]);
      if state.Some? {
        seen := seen + {state.value};
      }
      forall s ensures Resolves(same[..i + 1], stateFor, s) <==> Resolves(same[..i], stateFor, s) || state == Some(s) {
        ResolvesOneMore(same, i, stateFor, s);
      }
    }
    assert same[..|same|] == same;
    usedFallback := false;
    if |seen| == 0 && areaDesc != "" {
      usedFallback := true;
      var segments := Split(areaDesc, ';');
      for i := 0 to |segments|
        invariant forall s :: s in seen <==> Named(segments[..i], known, s)
      {
        var state := SegmentState(segments[i], known);
        if state.Some? {
          seen := seen + {state.value};
        }
        forall s ensures Named(segments[..i + 1], known, s) <==> Named(segments[..i], known, s) || state == Some(s) {
          NamedOneMore(segments, i, known, s);
        }
      }
      assert segments[..|segments|] == segments;
    }
    out := [];
    var todo := seen;
    while todo != {}
      invariant todo <= seen && Ascending(out)
      invariant forall s :: s in out <==> s in seen && s !in todo
      decreases todo
    {
      var s :| s in todo;
      InsertKeepsAscending(out, s);
      out := Insert(out, s);
      todo := todo - {s};
    }
    AscendingHasNoRepeats(out);
  }

  lemma ResolvesOneMore(codes: seq<string>, i: nat, stateFor: string -> Option<string>, state: string)
    requires i < |codes|
    ensures Resolves(codes[..i + 1], stateFor, state)
       <==> Resolves(codes[..i], stateFor, state) || stateFor(codes[i]) == Some(state)
  {
    var more, less := codes[..i + 1], codes[..i];
    assert forall k :: 0 <= k < i ==> more[k] == less[k];
    assert more[i] == codes[i];
  }

  lemma NamedOneMore(segments: seq<string>, i: nat, known: string -> bool, state: string)
    requires i < |segments|
    ensures Named(segments[..i + 1], known, state)
       <==> Named(segments[..i], known, state) || SegmentState(segments[i], known) == Some(state)
  {
    hide SegmentState;
    var more, less := segments[..i + 1], segments[..i];
    assert forall k :: 0 <= k < i ==> more[k] == less[k];
    assert more[i] == segments[i];
  }

  // ----- sharding -----

  function Shard(alerts: seq<ActiveAlert>, state: string): seq<ActiveAlert> {
    if alerts == [] then []
    else
      var rest := Shard(alerts[..|alerts| - 1], state);
      if state in alerts[|alerts| - 1].states then rest + [alerts[|alerts| - 1]] else rest
  }

  /** The shard is the alerts at an increasing list of exactly the positions that cover the state. */
  lemma {:induction false} ShardInOrder(alerts: seq<ActiveAlert>, state: string) returns (at: seq<nat>)
    ensures |at| == |Shard(alerts, state)|
    ensures forall k :: 0 <= k < |at| ==> at[k] < |alerts| && Shard(alerts, state)[k] == alerts[at[k]]
    ensures forall k, m :: 0 <= k < m < |at| ==> at[k] < at[m]
    ensures forall i: nat :: i < |alerts| ==> (i in at <==> state in alerts[i].states)
  {
    if alerts == [] {
      at := [];
    } else {
      var n := |alerts| - 1;
      var init, last := alerts[..n], alerts[n];
      at := ShardInOrder(init, state);
      var before := Shard(init, state);
      assert Shard(alerts, state) == if state in last.states then before + [last] else before;
      hide Shard;
      assert forall i: nat :: i < n ==> init[i] == alerts[i];
      if state in last.states {
        at := at + [n];
      }
    }
  }

  method FilterAlertsByState(alerts: seq<ActiveAlert>, state: string) returns (out: seq<ActiveAlert>)
    ensures out == Shard(alerts, state)
    ensures forall a :: a in out <==> a in alerts && state in a.states
  {
    out := [];
    for i := 0 to |alerts|
      invariant out == Shard(alerts[..i], state)
      invariant forall a :: a in out <==> a in alerts[..i] && state in a.states
    {
      assert alerts[..i + 1] == alerts[..i] + [alerts[i]] && alerts[..i + 1][..i] == alerts[..i];
      if state in alerts[i].states {
        out := out + [alerts[i]];
      }
    }
    assert alerts[..|alerts|] == alerts;
  }

  /** The alerts published over all shards. */
  function ShardTotal(alerts: seq<ActiveAlert>, areas: seq<string>): nat {
    if areas == [] then 0 else ShardTotal(alerts, areas[..|areas| - 1]) + |Shard(alerts, areas[|areas| - 1])|
  }

  /** The polled areas that an alert covers. */
  function Covered(a: ActiveAlert, areas: seq<string>): set<string> {
    set s | s in areas && s in a.states
  }

  function CoverTotal(alerts: seq<ActiveAlert>, areas: seq<string>): nat {
    if alerts == [] then 0 else CoverTotal(alerts[..|alerts| - 1], areas) + |Covered(alerts[|alerts| - 1], areas)|
  }

  lemma {:induction false} CoverNothing(alerts: seq<ActiveAlert>)
    ensures CoverTotal(alerts, []) == 0
  {
    if alerts == [] {
    } else {
      CoverNothing(alerts[..|alerts| - 1]);
      assert Covered(alerts[|alerts| - 1], []) == {};
    }
  }

  lemma {:induction false} CoverOneMoreArea(alerts: seq<ActiveAlert>, areas: seq<string>, area: string)
    requires area !in areas
    ensures CoverTotal(alerts, areas + [area]) == CoverTotal(alerts, areas) + |Shard(alerts, area)|
  {
    if alerts == [] {
    } else {
      var n := |alerts| - 1;
      CoverOneMoreArea(alerts[..n], areas, area);
      var a := alerts[n];
      assert Covered(a, areas + [area]) == Covered(a, areas) + (if area in a.states then {area} else {});
    }
  }

  /** Every alert is published once in the shard of each polled area it covers, and nowhere else. */
  lemma {:induction false} ShardsCountEveryCover(alerts: seq<ActiveAlert>, areas: seq<string>)
    requires NoRepeats(areas)
    ensures ShardTotal(alerts, areas) == CoverTotal(alerts, areas)
  {
    if areas == [] {
      CoverNothing(alerts);
    } else {
      var init, area := areas[..|areas| - 1], areas[|areas| - 1];
      ShardsCountEveryCover(alerts, init);
      CoverOneMoreArea(alerts, init, area);
      assert areas == init + [area];
    }
  }
}
