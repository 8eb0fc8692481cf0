/** The tornado detection axis of an alert (internal/nws/detection.go). */
module Detection {
  import opened Common
  import opened Text
  import opened Warnings
  import Tags

  /** (nil, nil), (nil, err) and (det, nil). */
  datatype Result = NoDetection | Drift | Detected(det: TornadoDetection)

  type Params = map<string, seq<string>>

  // ----- parameters and tokens -----

  function FirstNonBlank(entries: seq<string>): Option<string> {
    if entries == [] then None
    else if TrimSpace(entries[0]) != "" then Some(entries[0])
    else FirstNonBlank(entries[1..])
  }

  function ParamOf(params: Params, key: string): Option<string> {
    if key in params then FirstNonBlank(params[key]) else None
  }

  /** `e` stands at `k`, is not blank, and everything before it is. */
  predicate FirstNonBlankAt(entries: seq<string>, k: nat, e: string) {
    && k < |entries| && entries[k] == e && TrimSpace(e) != ""
    && forall j :: 0 <= j < k ==> TrimSpace(entries[j]) == ""
  }

  method FirstParam(params: Params, key: string) returns (r: Option<string>)
    ensures r == ParamOf(params, key)
    ensures r.Some? ==> key in params && exists k: nat :: FirstNonBlankAt(params[key], k, r.value)
    ensures r.None? <==> (key in params ==> forall i :: 0 <= i < |params[key]| ==> TrimSpace(params[key][i]) == "")
  {
    if key !in params {
      return None;
    }
    var entries := params[key];
    for i := 0 to |entries|
      invariant FirstNonBlank(entries[i..]) == FirstNonBlank(entries)
      invariant forall j :: 0 <= j < i ==> TrimSpace(entries[j]) == ""
    {
      assert entries[i..][1..] == entries[i + 1..];
      if TrimSpace(entries[i]) != "" {
        assert FirstNonBlankAt(entries, i, entries[i]);
        return Some(entries[i]);
      }
    }
    return None;
  }

  /** What a detection token says. */
  datatype Level = Level(state: State) | NotALevel | Unknown

  function LevelOf(raw: string): Level {
    var token := Normalize(raw);
    if token == "RADAR INDICATED" then Level(RadarIndicated)
    else if token == "OBSERVED" then Level(Observed)
    else if token == "POSSIBLE" then NotALevel
    else Unknown
  }

  function ThreatOf(raw: string): DamageThreat {
    var token := Normalize(raw);
    if token == "CONSIDERABLE" then Considerable
    else if token == "CATASTROPHIC" then Catastrophic
    else Base
  }

  // ----- the narrative patterns -----

  predicate IsWordChar(c: char) {
    'a' <= c <= 'z' || 'A' <= c <= 'Z' || '0' <= c <= '9' || c == '_'
  }

  /** `word` at `i`, in any case, not preceded by a word character. */
  predicate WordAt(s: string, i: nat, word: string) {
    && i + |word| <= |s|
    && ToUpper(s[i..i + |word|]) == word
    && (i == 0 || !IsWordChar(s[i - 1]))
  }

  /** The class `\s`, which has no vertical tab. */
  predicate IsPatternSpace(c: char) {
    c == ' ' || c == '\t' || c == '\n' || c == '\r' || c == '\U{0c}'
  }

  function SpaceRun(s: string): (n: nat)
    ensures n <= |s|
    ensures forall i :: 0 <= i < n ==> IsPatternSpace(s[i])
    ensures n < |s| ==> !IsPatternSpace(s[n])
  {
    if s == "" || !IsPatternSpace(s[0]) then 0 else 1 + SpaceRun(s[1..])
  }

  /** Giving spaces back until a character other than a newline follows. */
  function ValueStart(s: string, q: nat, n: nat): (p: Option<nat>)
    requires q + n <= |s|
    ensures p.Some? ==> q <= p.value <= q + n && p.value < |s| && s[p.value] != '\n'
    ensures forall k :: q <= k <= q + n && k < |s| && (p.None? || k > p.value) ==> s[k] == '\n'
  {
    if q + n < |s| && s[q + n] != '\n' then Some(q + n)
    else if n == 0 then None
    else ValueStart(s, q, n - 1)
  }

  function LineFrom(s: string): string {
    if s == "" || s[0] == '\n' then "" else [s[0]] + LineFrom(s[1..])
  }

  /** `\bWORD\.{2,}\s*([^\n]+)` with its word at `i`: greedy, giving back spaces and then a dot. */
  function CaptureAt(s: string, i: nat, word: string): Option<string> {
    if !WordAt(s, i, word) then None
    else
      var p := i + |word|;
      var d := Tags.DotRun(s[p..]);
      if d < 2 then None
      else
        var start := ValueStart(s, p + d, SpaceRun(s[p + d..]));
        if start.Some? then Some(LineFrom(s[start.value..]))
        else if d > 2 then Some(LineFrom(s[p + d - 1..]))
        else None
  }

  /** One way to match the pattern at `i`: its word, `d` dots, `n` spaces, and something on the rest of the line. */
  predicate PatternAt(s: string, i: nat, word: string, d: nat, n: nat) {
    var p := i + |word|;
    && WordAt(s, i, word) && d >= 2 && p + d + n < |s|
    && (forall k :: p <= k < p + d ==> s[k] == '.')
    && (forall k :: p + d <= k < p + d + n ==> s[k] in [' ', '\t', '\n', '\r', '\U{0c}'])
    && s[p + d + n] != '\n'
  }

  /** The longest run of dots at `p`, and of spaces after it. */
  predicate LongestRuns(s: string, p: nat, d: nat, n: nat) {
    && p + d + n <= |s|
    && (forall k :: p <= k < p + d ==> s[k] == '.')
    && (forall k :: p + d <= k < p + d + n ==> IsPatternSpace(s[k]))
    && (p + d < |s| ==> s[p + d] != '.')
    && (p + d + n < |s| ==> !IsPatternSpace(s[p + d + n]))
  }

  lemma RunsInPlace(s: string, p: nat)
    requires p <= |s|
    ensures
      var d := Tags.DotRun(s[p..]);
      p + d <= |s| && LongestRuns(s, p, d, SpaceRun(s[p + d..]))
  {
    var tail, d := s[p..], Tags.DotRun(s[p..]);
    assert forall k :: p <= k < |s| ==> s[k] == tail[k - p];
    var rest := s[p + d..];
    assert forall k :: p + d <= k < |s| ==> s[k] == rest[k - p - d];
  }

  /** No more dots, and as many spaces only with as many dots: the way a greedy match prefers. */
  ghost predicate Preferred(s: string, i: nat, word: string, d: nat, n: nat) {
    && PatternAt(s, i, word, d, n)
    && forall d': nat, n': nat :: PatternAt(s, i, word, d', n') ==> d' < d || (d' == d && n' <= n)
  }

  /** The rest of the line after the preferred way. */
  ghost predicate Captures(s: string, i: nat, word: string, d: nat, n: nat, value: string) {
    Preferred(s, i, word, d, n) && i + |word| + d + n <= |s| && value == LineFrom(s[i + |word| + d + n..])
  }

  /** Where a way to match can end, given the longest runs. */
  predicate WayEnds(start: Option<nat>, q: nat, d: nat, d': nat, n': nat) {
    d' >= 2 && ((d' < d && n' == 0) || (d' == d && start.Some? && q + n' <= start.value))
  }

  lemma WaysAreBounded(s: string, i: nat, word: string, d: nat, n: nat, d': nat, n': nat)
    requires LongestRuns(s, i + |word|, d, n) && PatternAt(s, i, word, d', n')
    ensures WayEnds(ValueStart(s, i + |word| + d, n), i + |word| + d, d, d', n')
  {
    hide WordAt;
    hide ValueStart;
    var p := i + |word|;
    var dot, afterDots := s[p + d'], if p + d < |s| then s[p + d] else ' ';
    var afterSpaces := if p + d + n < |s| then s[p + d + n] else ' ';
  }

  lemma GreedyWay(s: string, i: nat, word: string, d: nat, n: nat)
    requires WordAt(s, i, word) && LongestRuns(s, i + |word|, d, n)
    ensures
      var q := i + |word| + d;
      var start := ValueStart(s, q, n);
      && (d >= 2 && start.Some? ==> PatternAt(s, i, word, d, start.value - q))
      && (d > 2 && start.None? ==> PatternAt(s, i, word, d - 1, 0))
  {
    hide WordAt;
    hide ValueStart;
  }

  lemma CaptureAtIs(s: string, i: nat, word: string, d: nat, start: Option<nat>)
    requires WordAt(s, i, word)
    requires
      var p := i + |word|;
      d == Tags.DotRun(s[p..]) && start == ValueStart(s, p + d, SpaceRun(s[p + d..]))
    ensures CaptureAt(s, i, word)
         == if d < 2 then None
            else if start.Some? then Some(LineFrom(s[start.value..]))
            else if d > 2 then Some(LineFrom(s[i + |word| + d - 1..]))
            else None
  {
    hide WordAt;
    hide ValueStart;
    hide LineFrom;
  }

  lemma WordFits(s: string, i: nat, word: string)
    requires WordAt(s, i, word)
    ensures i + |word| <= |s|
  {}

  lemma GreedyIsPreferred(s: string, i: nat, word: string, d: nat, start: Option<nat>)
    requires WordAt(s, i, word)
    requires
      var p := i + |word|;
      d == Tags.DotRun(s[p..]) && start == ValueStart(s, p + d, SpaceRun(s[p + d..]))
    ensures start.Some? ==> i + |word| + d <= start.value <= |s|
    ensures d >= 2 && start.Some? ==> Preferred(s, i, word, d, start.value - i - |word| - d)
    ensures d > 2 && start.None? ==> Preferred(s, i, word, d - 1, 0)
    ensures d < 2 || (d == 2 && start.None?) ==> forall d': nat, n': nat :: !PatternAt(s, i, word, d', n')
  {
    hide *;
    var p := i + |word|;
    assert p <= |s| by {
      WordFits(s, i, word);
    }
    RunsInPlace(s, p);
    var q := p + d;
    var n := SpaceRun(s[q..]);
    GreedyWay(s, i, word, d, n);
    forall d': nat, n': nat | PatternAt(s, i, word, d', n') ensures WayEnds(start, q, d, d', n') {
      WaysAreBounded(s, i, word, d, n, d', n');
    }
    BestWay(s, i, word, d, start);
  }

  /** The scanner matches at a place exactly when the pattern does, and of all the ways takes the greedy one. */
  lemma CaptureAtExactly(s: string, i: nat, word: string)
    ensures
      var c := CaptureAt(s, i, word);
      && (c.None? ==> forall d: nat, n: nat :: !PatternAt(s, i, word, d, n))
      && (c.Some? ==> exists d: nat, n: nat :: Captures(s, i, word, d, n, c.value))
  {
    hide CaptureAt;
    hide PatternAt;
    hide Preferred;
    hide LineFrom;
    hide ValueStart;
    hide SpaceRun;
    hide Tags.DotRun;
    if WordAt(s, i, word) {
      var p := i + |word|;
      var d := Tags.DotRun(s[p..]);
      var start := ValueStart(s, p + d, SpaceRun(s[p + d..]));
      hide WordAt;
      CaptureAtIs(s, i, word, d, start);
      GreedyIsPreferred(s, i, word, d, start);
      if d >= 2 && start.Some? {
        assert Captures(s, i, word, d, start.value - p - d, LineFrom(s[start.value..]));
      } else if d > 2 {
        assert Captures(s, i, word, d - 1, 0, LineFrom(s[p + d - 1..]));
      }
    } else {
      NoWordNoMatch(s, i, word);
    }
  }

  lemma NoWordNoMatch(s: string, i: nat, word: string)
    requires !WordAt(s, i, word)
    ensures CaptureAt(s, i, word).None? && forall d: nat, n: nat :: !PatternAt(s, i, word, d, n)
  {
    hide WordAt;
  }

  lemma BestWay(s: string, i: nat, word: string, d: nat, start: Option<nat>)
    requires
      var q := i + |word| + d;
      && (forall d': nat, n': nat :: PatternAt(s, i, word, d', n') ==> WayEnds(start, q, d, d', n'))
      && (start.Some? ==> start.value >= q)
      && (d >= 2 && start.Some? ==> PatternAt(s, i, word, d, start.value - q))
      && (d > 2 && start.None? ==> PatternAt(s, i, word, d - 1, 0))
    ensures d >= 2 && start.Some? ==> Preferred(s, i, word, d, start.value - i - |word| - d)
    ensures d > 2 && start.None? ==> Preferred(s, i, word, d - 1, 0)
    ensures d < 2 || (d == 2 && start.None?) ==> forall d': nat, n': nat :: !PatternAt(s, i, word, d', n')
  {
    hide PatternAt;
  }

  lemma NoWordPastEnd(s: string, i: nat, word: string)
    requires i > |s|
    ensures CaptureAt(s, i, word).None?
  {}

  /** The leftmost match at or after `i`. */
  function Capture(s: string, i: nat, word: string): Option<string>
    decreases |s| - i
  {
    if i > |s| then None
    else if CaptureAt(s, i, word).Some? then CaptureAt(s, i, word)
    else Capture(s, i + 1, word)
  }

  lemma {:induction false} CaptureIsLeftmost(s: string, i: nat, word: string)
    ensures Capture(s, i, word).None? ==> forall k: nat :: i <= k ==> CaptureAt(s, k, word).None?
    ensures Capture(s, i, word).Some? ==> exists n: nat ::
      && i <= n && CaptureAt(s, n, word) == Capture(s, i, word)
      && forall k: nat :: i <= k < n ==> CaptureAt(s, k, word).None?
    decreases |s| - i
  {
    hide CaptureAt;
    if i > |s| {
      forall k: nat | i <= k ensures CaptureAt(s, k, word).None? {
        NoWordPastEnd(s, k, word);
      }
    } else if CaptureAt(s, i, word).None? {
      CaptureIsLeftmost(s, i + 1, word);
    }
  }

  /** The pattern matches somehow at `i`. */
  ghost predicate MatchesAt(s: string, i: nat, word: string) {
    exists d: nat, n: nat :: PatternAt(s, i, word, d, n)
  }

  /** The greedy match at `i` is followed by `value`. */
  ghost predicate GreedyAt(s: string, i: nat, word: string, value: string) {
    exists d: nat, n: nat :: Captures(s, i, word, d, n, value)
  }

  lemma CaptureAtMatches(s: string, i: nat, word: string)
    ensures CaptureAt(s, i, word).Some? <==> MatchesAt(s, i, word)
    ensures CaptureAt(s, i, word).Some? ==> GreedyAt(s, i, word, CaptureAt(s, i, word).value)
  {
    CaptureAtExactly(s, i, word);
    if CaptureAt(s, i, word).Some? {
      var d: nat, n: nat :| Captures(s, i, word, d, n, CaptureAt(s, i, word).value);
      hide CaptureAt;
      assert PatternAt(s, i, word, d, n);
    }
  }

  /**
   The scanner as a whole finds the leftmost place where the pattern matches, and there the greedy match; it finds
   nothing exactly when the pattern matches nowhere.
   */
  lemma CaptureExactly(s: string, word: string)
    ensures
      var c := Capture(s, 0, word);
      && (c.None? <==> forall i: nat :: !MatchesAt(s, i, word))
      && (c.Some? ==> exists i: nat ::
            GreedyAt(s, i, word, c.value) && MatchesAt(s, i, word) && forall k: nat :: k < i ==> !MatchesAt(s, k, word))
  {
    CaptureIsLeftmost(s, 0, word);
    hide MatchesAt;
    hide GreedyAt;
    hide Capture;
    forall i: nat
      ensures CaptureAt(s, i, word).Some? <==> MatchesAt(s, i, word)
      ensures CaptureAt(s, i, word).Some? ==> GreedyAt(s, i, word, CaptureAt(s, i, word).value)
    {
      CaptureAtMatches(s, i, word);
    }
    hide CaptureAt;
  }

  /** The rest of the line: up to the first newline, or the end. */
  lemma {:induction false} LineFromExactly(s: string)
    ensures LineFrom(s) <= s && '\n' !in LineFrom(s)
    ensures |LineFrom(s)| < |s| ==> s[|LineFrom(s)|] == '\n'
  {
    if s == "" || s[0] == '\n' {
    } else {
      LineFromExactly(s[1..]);
    }
  }

  predicate OccursAt(s: string, i: nat, part: string) {
    i + |part| <= |s| && s[i..i + |part|] == part
  }

  predicate Contains(s: string, part: string) {
    exists i: nat :: i <= |s| && OccursAt(s, i, part)
  }

  predicate ContainsWord(s: string, word: string) {
    exists i :: 0 <= i <= |s| - |word| && WordAt(s, i, word)
      && (i + |word| == |s| || !IsWordChar(s[i + |word|]))
  }

  /** Some stretch of the text is `part`. */
  lemma ContainsExactly(s: string, part: string)
    ensures Contains(s, part) <==> exists left, right :: s == left + part + right
  {
    if i: nat :| i <= |s| && OccursAt(s, i, part) {
      assert s == s[..i] + part + s[i + |part|..];
    }
    if left, right :| s == left + part + right {
      assert s[|left|..|left| + |part|] == part;
      assert OccursAt(s, |left|, part);
    }
  }

  /** A letter, a digit or an underscore. */
  predicate TouchesWord(c: char) {
    c == '_' || ('0' <= c && c <= '9') || 'A' <= UpperChar(c) <= 'Z'
  }

  /** `middle` stands alone between these: no word character touches it. */
  predicate StandsAlone(s: string, left: string, middle: string, right: string) {
    && s == left + middle + right
    && (left == "" || !TouchesWord(left[|left| - 1]))
    && (right == "" || !TouchesWord(right[0]))
  }

  /** Some stretch of the text, standing alone, is the word in any case. */
  lemma ContainsWordExactly(s: string, word: string)
    ensures ContainsWord(s, word) <==>
      exists left, middle, right :: StandsAlone(s, left, middle, right) && ToUpper(middle) == word
  {
    if ContainsWord(s, word) {
      var i :| 0 <= i <= |s| - |word| && WordAt(s, i, word) && (i + |word| == |s| || !IsWordChar(s[i + |word|]));
      var left, middle, right := s[..i], s[i..i + |word|], s[i + |word|..];
      assert s == left + middle + right;
      assert StandsAlone(s, left, middle, right);
    }
    if left, middle, right :| StandsAlone(s, left, middle, right) && ToUpper(middle) == word {
      var i := |left|;
      assert s[i..i + |word|] == middle;
      assert i > 0 ==> s[i - 1] == left[i - 1];
      assert right != "" ==> s[i + |word|] == right[0];
      assert WordAt(s, i, word);
    }
  }

  /** An actual tornado hazard, not a tornado mentioned beside wind or hail. */
  predicate IsTornadoHazard(description: string) {
    var m := Capture(description, 0, "HAZARD");
    && m.Some?
    && Contains(ToUpper(m.value), "TORNADO")
    && !ContainsWord(m.value, "POSSIBLE") && !ContainsWord(m.value, "WIND") && !ContainsWord(m.value, "HAIL")
    && !ContainsWord(m.value, "MPH") && !ContainsWord(m.value, "GUST")
  }

  function TrimDots(s: string): string {
    if s != "" && s[|s| - 1] == '.' then TrimDots(s[..|s| - 1]) else s
  }

  /** Trimming takes off the dots at the end, and all of them. */
  lemma {:induction false} TrimDotsExactly(s: string) returns (dots: string)
    ensures s == TrimDots(s) + dots && forall c :: c in dots ==> c == '.'
    ensures TrimDots(s) != "" ==> TrimDots(s)[|TrimDots(s)| - 1] != '.'
  {
    if s == "" || s[|s| - 1] != '.' {
      dots := "";
    } else {
      var n := |s| - 1;
      dots := TrimDotsExactly(s[..n]);
      dots := dots + [s[n]];
      assert s == s[..n] + [s[n]];
    }
  }

  function NarrativeSource(description: string): string {
    var m := Capture(description, 0, "SOURCE");
    if m.Some? then TrimDots(TrimSpace(m.value)) else ""
  }

  // ----- the three tiers -----

  /** The level the structured sources give: parameter first, then the TORNADO tag of the block. */
  function StructuredLevel(params: Params, tags: Option<WarningTags>): Level {
    var raw := ParamOf(params, "tornadoDetection");
    if raw.Some? && LevelOf(raw.value) != NotALevel then LevelOf(raw.value)
    else if tags.Some? && Normalize(tags.value.tornado) != "" then LevelOf(tags.value.tornado)
    else NotALevel
  }

  function Threat(params: Params, tags: Option<WarningTags>): DamageThreat {
    var raw := ParamOf(params, "tornadoDamageThreat");
    var fromParam := if raw.Some? then ThreatOf(raw.value) else Base;
    if fromParam == Base && tags.Some? then ThreatOf(tags.value.tornadoDamageThreat) else fromParam
  }

  function SourceText(tags: Option<WarningTags>, description: string): string {
    if tags.Some? && TrimSpace(tags.value.source) != "" then TrimSpace(tags.value.source)
    else NarrativeSource(description)
  }

  function Detect(params: Params, description: string): Result {
    var tags := Tags.ParseTags(description);
    var det := (s: State) => TornadoDetection(s, s == Observed, Threat(params, tags), SourceText(tags, description));
    match StructuredLevel(params, tags)
    case Unknown => Drift
    case Level(s) => Detected(det(s))
    case NotALevel =>
      if IsTornadoHazard(description) && Contains(ToUpper(NarrativeSource(description)), "RADAR INDICATED")
      then Detected(det(RadarIndicated))
      else NoDetection
  }

  method DetectTornado(params: Params, description: string) returns (r: Result)
    ensures r == Detect(params, description)
  {
    hide Normalize;
    hide IsTornadoHazard;
    hide NarrativeSource;
    hide LevelOf;
    hide ThreatOf;
    hide Tags.ParseTags;
    EmptyIsBlank();
    var state: Option<State> := None;
    var raw := FirstParam(params, "tornadoDetection");
    if raw.Some? {
      match LevelOf(raw.value)
      case Level(s) => state := Some(s);
      case NotALevel =>
      case Unknown => return Drift;
    }
    var threat := Base;
    var rawThreat := FirstParam(params, "tornadoDamageThreat");
    if rawThreat.Some? {
      threat := ThreatOf(rawThreat.value);
    }
    var sourceText := "";
    var tags := Tags.ParseWarningTags(description);
    if tags.Some? {
      if state.None? && Normalize(tags.value.tornado) != "" {
        match LevelOf(tags.value.tornado)
        case Level(s) => state := Some(s);
        case NotALevel =>
        case Unknown => return Drift;
      }
      if threat == Base {
        threat := ThreatOf(tags.value.tornadoDamageThreat);
      }
      sourceText := TrimSpace(tags.value.source);
    }
    var narrativeSource := NarrativeSource(description);
    if sourceText == "" && narrativeSource != "" {
      sourceText := narrativeSource;
    }
    if state.None? && IsTornadoHazard(description) && Contains(ToUpper(narrativeSource), "RADAR INDICATED") {
      state := Some(RadarIndicated);
    }
    if state.None? {
      return NoDetection;
    }
    return Detected(TornadoDetection(state.value, state.value == Observed, threat, sourceText));
  }

  // ----- detection never overclaims -----

  predicate IsObserved(r: Result) {
    r.Detected? && r.det.detection == Observed
  }

  /** The parameter says OBSERVED. */
  predicate ParameterObserved(params: Params) {
    var raw := ParamOf(params, "tornadoDetection");
    raw.Some? && Normalize(raw.value) == "OBSERVED"
  }

  /** The parameter settles nothing: absent, blank or POSSIBLE. */
  predicate ParameterSilent(params: Params) {
    var raw := ParamOf(params, "tornadoDetection");
    raw.None? || Normalize(raw.value) == "POSSIBLE"
  }

  /** The parameter normalises to this token. */
  predicate ParameterSays(params: Params, token: string) {
    var raw := ParamOf(params, "tornadoDetection");
    raw.Some? && Normalize(raw.value) == token
  }

  /** The lines of the `&&` block; none when there is no block. */
  function BlockLines(description: string): seq<string> {
    var block := Tags.Block(description);
    if block.Some? then Split(block.value, '\n') else []
  }

  /** The last TORNADO line of the `&&` block normalises to this token. */
  ghost predicate LastTagSays(description: string, token: string) {
    exists i: nat, v :: Tags.LastLine(BlockLines(description), i, Tags.Tornado, v) && Normalize(v) == token
  }

  ghost predicate LastTagObserved(description: string) {
    LastTagSays(description, "OBSERVED")
  }

  /** The normal form of the block's TORNADO value, empty when there is none. */
  function TagToken(description: string): string {
    var tags := Tags.ParseTags(description);
    if tags.Some? then Normalize(tags.value.tornado) else ""
  }

  /** The tag settles nothing: none, or POSSIBLE. */
  predicate TagSilent(description: string) {
    TagToken(description) in ["", "POSSIBLE"]
  }

  /** What the parsed tags hold under a key: the lines of the block alone decide. */
  lemma TagsOfBlock(description: string)
    ensures
      var tags, t := Tags.ParseTags(description), Tags.ParseLines(BlockLines(description));
      if tags.Some? then tags.value == t else forall k :: Tags.Get(t, k) == ""
  {
    hide Tags.ParseLines;
    if Tags.Block(description).None? {
      NoLinesNoTags();
    }
  }

  lemma NoLinesNoTags()
    ensures forall k :: Tags.Get(Tags.ParseLines([]), k) == ""
  {}

  /** That token is what the last TORNADO line of the block says, and empty exactly when there is no such line. */
  lemma TagTokenIsLastLine(description: string)
    ensures forall token :: token != "" ==> (LastTagSays(description, token) <==> TagToken(description) == token)
    ensures TagToken(description) == "" <==> Tags.NoLine(BlockLines(description), Tags.Tornado)
  {
    TagsOfBlock(description);
    EmptyIsBlank();
    var lines := BlockLines(description);
    Tags.FieldIsLastLine(lines, Tags.Tornado);
    var t := Tags.ParseLines(lines);
    assert Tags.Get(t, Tags.Tornado) == t.tornado;
    assert TagToken(description) == Normalize(t.tornado);
    if t.tornado != "" {
      TrimSpaceTrims(t.tornado);
      NormalizeBlank(t.tornado);
    }
    hide *;
    forall token | token != "" ensures LastTagSays(description, token) <==> Normalize(t.tornado) == token {
      SaysUnfolds(description, token);
      SaysByField(lines, t.tornado, token);
    }
  }

  ghost predicate Says(lines: seq<string>, token: string) {
    exists i: nat, v :: Tags.LastLine(lines, i, Tags.Tornado, v) && Normalize(v) == token
  }

  lemma SaysUnfolds(description: string, token: string)
    ensures LastTagSays(description, token) <==> Says(BlockLines(description), token)
  {
    hide BlockLines;
    hide Tags.LastLine;
    hide Normalize;
  }

  lemma SaysByField(lines: seq<string>, field: string, token: string)
    requires token != "" && Normalize("") == ""
    requires field != "" ==> exists i: nat :: Tags.LastLine(lines, i, Tags.Tornado, field)
    requires forall i: nat, u :: Tags.LastLine(lines, i, Tags.Tornado, u) ==> u == field
    ensures Says(lines, token) <==> Normalize(field) == token
  {
    hide Tags.LastLine;
    hide Normalize;
  }

  lemma EmptyIsBlank()
    ensures Normalize("") == ""
  {}

  /**
   OBSERVED is claimed exactly when the structured parameter says so, or says nothing and the last
   TORNADO line of the tag block does; no narrative text can make it so. `confirmed` mirrors it.
   */
  lemma ObservedExactly(params: Params, description: string)
    ensures IsObserved(Detect(params, description)) <==>
      ParameterObserved(params) || (ParameterSilent(params) && LastTagObserved(description))
    ensures Detect(params, description).Detected? ==>
      (Detect(params, description).det.confirmed <==> IsObserved(Detect(params, description)))
  {
    LevelExactly(params, description);
    TagTokenIsLastLine(description);
    hide StructuredLevel;
    hide ParamOf;
    hide Normalize;
    hide LastTagSays;
    hide TagToken;
    hide Tags.ParseTags;
    hide IsTornadoHazard;
    hide NarrativeSource;
    hide Contains;
    hide Threat;
    hide SourceText;
  }

  /** Text outside the block never turns a result into OBSERVED, nor out of it. */
  lemma NarrativeCannotConfirm(params: Params, description: string, other: string)
    requires Tags.Block(description) == Tags.Block(other)
    ensures IsObserved(Detect(params, description)) <==> IsObserved(Detect(params, other))
  {
    assert BlockLines(description) == BlockLines(other);
    hide BlockLines;
    ObservedExactly(params, description);
    ObservedExactly(params, other);
    hide Detect;
    hide ParameterObserved;
    hide ParameterSilent;
    hide Normalize;
    hide Tags.LastLine;
  }

  /** The structured sources say something unknown. */
  predicate StructuredDrift(params: Params, tags: Option<WarningTags>) {
    var raw := ParamOf(params, "tornadoDetection");
    || (raw.Some? && Normalize(raw.value) !in ["RADAR INDICATED", "OBSERVED", "POSSIBLE"])
    || (ParameterSilent(params) && tags.Some?
        && Normalize(tags.value.tornado) !in ["", "RADAR INDICATED", "OBSERVED", "POSSIBLE"])
  }

  /** Drift comes from the structured sources alone. */
  lemma DriftExactly(params: Params, description: string)
    ensures Detect(params, description).Drift? <==> StructuredDrift(params, Tags.ParseTags(description))
  {
    EmptyIsBlank();
    hide Normalize;
    hide IsTornadoHazard;
    hide NarrativeSource;
    hide ParamOf;
    hide Tags.ParseTags;
  }

  /**
   The narrative only ever adds RADAR_INDICATED: with the same block two descriptions get the same
   level, except that one may be radar-indicated where the other is undetected.
   */
  lemma NarrativeOnlyUnderclaims(params: Params, description: string, other: string)
    requires Tags.Block(description) == Tags.Block(other)
    ensures
      var r, q := Detect(params, description), Detect(params, other);
      && (r.Drift? <==> q.Drift?)
      && (r.Detected? && q.Detected? ==>
            r.det.detection == q.det.detection && r.det.damageThreat == q.det.damageThreat)
      && (r.Detected? && q.NoDetection? ==> r.det.detection == RadarIndicated)
  {
    hide Tags.Block;
    hide Tags.ParseLines;
    assert Tags.ParseTags(description) == Tags.ParseTags(other);
    hide Tags.ParseTags;
    hide IsTornadoHazard;
    hide NarrativeSource;
    hide StructuredLevel;
    hide Threat;
    hide Contains;
  }

  /** The normal form of a text that may be missing. */
  function NormalOf(raw: Option<string>): string {
    if raw.Some? then Normalize(raw.value) else ""
  }

  /** The damage threat is the parameter's when it names one, and else the tag's. */
  lemma DamageThreatExactly(params: Params, description: string)
    ensures
      var r, tags := Detect(params, description), Tags.ParseTags(description);
      var p := NormalOf(ParamOf(params, "tornadoDamageThreat"));
      var t := if tags.Some? then Normalize(tags.value.tornadoDamageThreat) else "";
      r.Detected? ==>
        var threat := r.det.damageThreat;
        && (threat == Catastrophic <==> p == "CATASTROPHIC" || (p != "CONSIDERABLE" && t == "CATASTROPHIC"))
        && (threat == Considerable <==> p == "CONSIDERABLE" || (p != "CATASTROPHIC" && t == "CONSIDERABLE"))
  {
    hide Normalize;
    hide ParamOf;
    hide Tags.ParseTags;
    hide IsTornadoHazard;
    hide NarrativeSource;
    hide StructuredLevel;
  }

  // ----- radar-indicated, undetected, and the source -----

  /** Text whose ends cannot begin or end `part` may be cut off. */
  lemma ContainsCore(left: string, core: string, right: string, part: string)
    requires part != ""
    requires forall c :: c in left ==> UpperChar(c) != part[0]
    requires forall c :: c in right ==> UpperChar(c) != part[|part| - 1]
    ensures Contains(ToUpper(left + core + right), part) <==> Contains(ToUpper(core), part)
  {
    var s, l := left + core + right, |left|;
    var upper, inner := ToUpper(s), ToUpper(core);
    assert upper[l..l + |core|] == inner;
    if i: nat :| i <= |upper| && OccursAt(upper, i, part) {
      EndsOfOccurrence(upper, i, part);
      assert forall k :: 0 <= k < l ==> s[k] == left[k];
      assert forall k :: l + |core| <= k < |s| ==> s[k] == right[k - l - |core|];
      assert l <= i && i + |part| <= l + |core|;
      hide ToUpper;
      InnerOccurrence(upper, l, inner, i, part);
    }
    if i: nat :| i <= |inner| && OccursAt(inner, i, part) {
      hide ToUpper;
      InnerOccurrence(upper, l, inner, l + i, part);
    }
  }

  lemma InnerOccurrence(s: string, l: nat, inner: string, i: nat, part: string)
    requires l + |inner| <= |s| && s[l..l + |inner|] == inner && l <= i && i + |part| <= l + |inner|
    ensures OccursAt(s, i, part) <==> OccursAt(inner, i - l, part)
  {
    assert forall k :: 0 <= k < |inner| ==> inner[k] == s[l + k];
    assert inner[i - l..i - l + |part|] == s[i..i + |part|];
  }

  lemma EndsOfOccurrence(s: string, i: nat, part: string)
    requires part != "" && OccursAt(s, i, part)
    ensures s[i] == part[0] && s[i + |part| - 1] == part[|part| - 1]
  {
    var cut := s[i..i + |part|];
    assert cut[0] == s[i] && cut[|part| - 1] == s[i + |part| - 1];
  }

  /** The SOURCE value may be searched as it stands: neither spaces nor dots begin or end the phrase. */
  lemma TrimmingKeepsPhrase(s: string)
    ensures Contains(ToUpper(TrimDots(TrimSpace(s))), "RADAR INDICATED") <==> Contains(ToUpper(s), "RADAR INDICATED")
  {
    var left, right := TrimSpaceExactly(s);
    var dots := TrimDotsExactly(TrimSpace(s));
    hide ToUpper;
    hide TrimSpace;
    hide TrimDots;
    hide Contains;
    ContainsCore(left, TrimSpace(s), right, "RADAR INDICATED");
    assert "" + TrimDots(TrimSpace(s)) + dots == TrimSpace(s);
    ContainsCore("", TrimDots(TrimSpace(s)), dots, "RADAR INDICATED");
  }

  /** The words that make a HAZARD line one of wind or hail, or of a mere possibility. */
  const EXCLUDING := ["POSSIBLE", "WIND", "HAIL", "MPH", "GUST"]

  /** The HAZARD line tells of a tornado and nothing else, and the SOURCE line of a radar indication. */
  predicate NarrativeQualifies(description: string) {
    var hazard, source := Capture(description, 0, "HAZARD"), Capture(description, 0, "SOURCE");
    && hazard.Some? && source.Some?
    && Contains(ToUpper(hazard.value), "TORNADO")
    && (forall i :: 0 <= i < |EXCLUDING| ==> !ContainsWord(hazard.value, EXCLUDING[i]))
    && Contains(ToUpper(source.value), "RADAR INDICATED")
  }

  lemma NothingContains(part: string)
    requires part != ""
    ensures !Contains(ToUpper(""), part)
  {}

  lemma NarrativeExactly(description: string)
    ensures NarrativeQualifies(description) <==>
      IsTornadoHazard(description) && Contains(ToUpper(NarrativeSource(description)), "RADAR INDICATED")
  {
    hide Capture;
    hide Contains;
    hide ContainsWord;
    hide ToUpper;
    hide TrimDots;
    NothingContains("RADAR INDICATED");
    var source := Capture(description, 0, "SOURCE");
    if source.Some? {
      TrimmingKeepsPhrase(source.value);
    }
    assert EXCLUDING[0] == "POSSIBLE" && EXCLUDING[1] == "WIND" && EXCLUDING[2] == "HAIL"
      && EXCLUDING[3] == "MPH" && EXCLUDING[4] == "GUST";
  }

  /**
   RADAR_INDICATED exactly when the parameter says so; or it settles nothing and the last TORNADO line says so; or
   neither settles anything and the narrative qualifies. Nothing exactly when the narrative then does not.
   */
  lemma RadarIndicatedExactly(params: Params, description: string)
    ensures
      var r := Detect(params, description);
      && (r.Detected? && r.det.detection == RadarIndicated <==>
            || ParameterSays(params, "RADAR INDICATED")
            || (ParameterSilent(params) && TagToken(description) == "RADAR INDICATED")
            || (ParameterSilent(params) && TagSilent(description) && NarrativeQualifies(description)))
      && (r.NoDetection? <==>
            ParameterSilent(params) && TagSilent(description) && !NarrativeQualifies(description))
  {
    LevelExactly(params, description);
    NarrativeExactly(description);
    hide StructuredLevel;
    hide ParameterSays;
    hide ParameterSilent;
    hide TagToken;
    hide Tags.ParseTags;
    hide NarrativeQualifies;
    hide IsTornadoHazard;
    hide NarrativeSource;
    hide Contains;
    hide Threat;
    hide SourceText;
  }

  /** What the structured sources come to. */
  lemma LevelExactly(params: Params, description: string)
    ensures
      var level, token := StructuredLevel(params, Tags.ParseTags(description)), TagToken(description);
      && (level == Level(RadarIndicated) <==>
            ParameterSays(params, "RADAR INDICATED") || (ParameterSilent(params) && token == "RADAR INDICATED"))
      && (level == Level(Observed) <==>
            ParameterSays(params, "OBSERVED") || (ParameterSilent(params) && token == "OBSERVED"))
      && (level == NotALevel <==> ParameterSilent(params) && token in ["", "POSSIBLE"])
  {
    EmptyIsBlank();
    hide Normalize;
    hide ParamOf;
    hide Tags.ParseTags;
  }

  /** The source shown: the block's SOURCE value, and only without one the narrative's. */
  lemma SourceTextExactly(params: Params, description: string)
    ensures
      var r, tags := Detect(params, description), Tags.ParseTags(description);
      r.Detected? ==>
        if tags.Some? && tags.value.source != "" then r.det.sourceText == tags.value.source
        else match Capture(description, 0, "SOURCE")
             case Some(value) => r.det.sourceText == TrimDots(TrimSpace(value))
             case None => r.det.sourceText == ""
  {
    SourceIsTrimmed(description);
    TrimSpaceTrims("");
    hide Threat;
    hide StructuredLevel;
    hide Tags.ParseTags;
    hide IsTornadoHazard;
    hide Capture;
    hide TrimDots;
    hide TrimSpace;
  }

  lemma SourceIsTrimmed(description: string)
    ensures
      var tags := Tags.ParseTags(description);
      tags.Some? ==> TrimSpace(tags.value.source) == tags.value.source
  {
    TagsOfBlock(description);
    var lines := BlockLines(description);
    var t := Tags.ParseLines(lines);
    Tags.FieldIsLastLine(lines, Tags.Source);
    assert Tags.Get(t, Tags.Source) == t.source;
    TrimSpaceTrims(t.source);
    hide *;
  }
}
