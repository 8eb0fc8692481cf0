/** The `&&` tag block of a warning description (internal/nws/tags.go). */
module Tags {
  import opened Common
  import opened Text
  import opened Warnings

  datatype TagKey =
    | Tornado | TornadoDamageThreat | Hail | MaxHailSize | Wind | MaxWindGust
    | ThunderstormDamageThreat | FlashFlood | FlashFloodDamageThreat | ExpectedRainfallRate
    | SpotterActivation | Source

  const NO_TAGS := WarningTags("", "", "", "", "", "", "", "", "", "", "", "")

  const TAG_KEYS := [Tornado, TornadoDamageThreat, Hail, MaxHailSize, Wind, MaxWindGust,
                    ThunderstormDamageThreat, FlashFlood, FlashFloodDamageThreat, ExpectedRainfallRate,
                    SpotterActivation, Source]

  /** The words of each canonical key; a key is its words with single spaces between them. */
  function KeyWords(k: TagKey): seq<string> {
    match k
    case Tornado => ["TORNADO"]
    case TornadoDamageThreat => ["TORNADO", "DAMAGE", "THREAT"]
    case Hail => ["HAIL"]
    case MaxHailSize => ["MAX", "HAIL", "SIZE"]
    case Wind => ["WIND"]
    case MaxWindGust => ["MAX", "WIND", "GUST"]
    case ThunderstormDamageThreat => ["THUNDERSTORM", "DAMAGE", "THREAT"]
    case FlashFlood => ["FLASH", "FLOOD"]
    case FlashFloodDamageThreat => ["FLASH", "FLOOD", "DAMAGE", "THREAT"]
    case ExpectedRainfallRate => ["EXPECTED", "RAINFALL", "RATE"]
    case SpotterActivation => ["SPOTTER", "ACTIVATION"]
    case Source => ["SOURCE"]
  }

  function KeyText(k: TagKey): string {
    Join(KeyWords(k))
  }

  function Get(t: WarningTags, k: TagKey): string {
    match k
    case Tornado => t.tornado
    case TornadoDamageThreat => t.tornadoDamageThreat
    case Hail => t.hail
    case MaxHailSize => t.maxHailSize
    case Wind => t.wind
    case MaxWindGust => t.maxWindGust
    case ThunderstormDamageThreat => t.thunderstormDamageThreat
    case FlashFlood => t.flashFlood
    case FlashFloodDamageThreat => t.flashFloodDamageThreat
    case ExpectedRainfallRate => t.expectedRainfallRate
    case SpotterActivation => t.spotterActivation
    case Source => t.source
  }

  function Assign(t: WarningTags, k: TagKey, v: string): (r: WarningTags)
    ensures forall j :: Get(r, j) == if j == k then v else Get(t, j)
  {
    match k
    case Tornado => t.(tornado := v)
    case TornadoDamageThreat => t.(tornadoDamageThreat := v)
    case Hail => t.(hail := v)
    case MaxHailSize => t.(maxHailSize := v)
    case Wind => t.(wind := v)
    case MaxWindGust => t.(maxWindGust := v)
    case ThunderstormDamageThreat => t.(thunderstormDamageThreat := v)
    case FlashFlood => t.(flashFlood := v)
    case FlashFloodDamageThreat => t.(flashFloodDamageThreat := v)
    case ExpectedRainfallRate => t.(expectedRainfallRate := v)
    case SpotterActivation => t.(spotterActivation := v)
    case Source => t.(source := v)
  }

  lemma SameFieldsSameTags(t: WarningTags, u: WarningTags)
    requires forall k :: Get(t, k) == Get(u, k)
    ensures t == u
  {
    assert Get(t, Tornado) == Get(u, Tornado);
    assert Get(t, TornadoDamageThreat) == Get(u, TornadoDamageThreat);
    assert Get(t, Hail) == Get(u, Hail);
    assert Get(t, MaxHailSize) == Get(u, MaxHailSize);
    assert Get(t, Wind) == Get(u, Wind);
    assert Get(t, MaxWindGust) == Get(u, MaxWindGust);
    assert Get(t, ThunderstormDamageThreat) == Get(u, ThunderstormDamageThreat);
    assert Get(t, FlashFlood) == Get(u, FlashFlood);
    assert Get(t, FlashFloodDamageThreat) == Get(u, FlashFloodDamageThreat);
    assert Get(t, ExpectedRainfallRate) == Get(u, ExpectedRainfallRate);
    assert Get(t, SpotterActivation) == Get(u, SpotterActivation);
    assert Get(t, Source) == Get(u, Source);
  }

  function IsEmpty(t: WarningTags): (b: bool)
    ensures b <==> forall k :: Get(t, k) == ""
  {
    if t == NO_TAGS then true
    else
      assert !(forall k :: Get(t, k) == "") by {
        if forall k :: Get(t, k) == "" {
          assert forall k :: Get(NO_TAGS, k) == "";
          SameFieldsSameTags(t, NO_TAGS);
        }
      }
      false
  }

  // ----- one line: ^([A-Z][A-Z /]*[A-Z])\.{3,}(.+)$ -----

  predicate IsKeyChar(c: char) {
    IsUpper(c) || c == ' ' || c == '/'
  }

  /** Length of the leading run of key characters. */
  function KeyRun(s: string): (n: nat)
    ensures n <= |s|
    ensures forall i :: 0 <= i < n ==> IsKeyChar(s[i])
    ensures n < |s| ==> !IsKeyChar(s[n])
  {
    if s == "" || !IsKeyChar(s[0]) then 0 else 1 + KeyRun(s[1..])
  }

  function DotRun(s: string): (n: nat)
    ensures n <= |s|
    ensures forall i :: 0 <= i < n ==> s[i] == '.'
    ensures n < |s| ==> s[n] != '.'
  {
    if s == "" || s[0] != '.' then 0 else 1 + DotRun(s[1..])
  }

  datatype KeyValue = KeyValue(key: string, value: string)

  /**
   The pattern's leftmost-greedy match. The key must be the whole run before the dots; the dots take
   all they can, giving one back when nothing else is left for the value.
   */
  function ScanLine(line: string): Option<KeyValue> {
    var k := KeyRun(line);
    var d := DotRun(line[k..]);
    if k < 2 || !IsUpper(line[0]) || !IsUpper(line[k - 1]) || d < 3 then None
    else if k + d < |line| then Some(KeyValue(line[..k], line[k + d..]))
    else if d > 3 then Some(KeyValue(line[..k], "."))
    else None
  }

  function Dots(n: nat): string {
    seq(n, _ => '.')
  }

  predicate IsKey(key: string) {
    && |key| >= 2 && 'A' <= key[0] <= 'Z' && 'A' <= key[|key| - 1] <= 'Z'
    && forall i :: 0 <= i < |key| ==> 'A' <= key[i] <= 'Z' || key[i] == ' ' || key[i] == '/'
  }

  /** One way to match the pattern: a key, at least three dots, and a value. */
  predicate Splits(line: string, key: string, d: nat, value: string) {
    line == key + Dots(d) + value && IsKey(key) && d >= 3 && value != ""
  }

  /** The scanner matches exactly the lines the pattern matches, and of all the ways takes the one with most dots. */
  lemma ScanLineIsGreedyMatch(line: string, key: string, d: nat, value: string)
    ensures Splits(line, key, d, value) ==>
      ScanLine(line).Some? && ScanLine(line).value.key == key && |ScanLine(line).value.value| <= |value|
    ensures ScanLine(line).Some? ==>
      exists n: nat :: Splits(line, ScanLine(line).value.key, n, ScanLine(line).value.value)
  {
    if Splits(line, key, d, value) {
      SplitIsFound(line, key, d, value);
    }
    if ScanLine(line).Some? {
      var k := KeyRun(line);
      var dots := DotRun(line[k..]);
      var n := if k + dots < |line| then dots else dots - 1;
      assert forall i :: 0 <= i < dots ==> line[k + i] == line[k..][i];
      assert line == line[..k] + Dots(n) + ScanLine(line).value.value;
      assert Splits(line, ScanLine(line).value.key, n, ScanLine(line).value.value);
    }
  }

  lemma SplitIsFound(line: string, key: string, d: nat, value: string)
    requires Splits(line, key, d, value)
    ensures ScanLine(line).Some? && ScanLine(line).value.key == key && |ScanLine(line).value.value| <= |value|
  {
    var k := |key|;
    assert forall i :: 0 <= i < k ==> line[i] == key[i];
    assert line[k] == '.';
    KeyRunIs(line, k);
    var tail := line[k..];
    assert tail == Dots(d) + value;
    assert forall i :: 0 <= i < d ==> tail[i] == '.';
    assert DotRun(tail) >= d;
    hide KeyRun;
    hide DotRun;
    assert line[..k] == key;
  }

  function LookupIn(keys: seq<TagKey>, key: string): (k: Option<TagKey>)
    ensures k.Some? ==> KeyText(k.value) == key
    ensures k.None? ==> forall i :: 0 <= i < |keys| ==> KeyText(keys[i]) != key
  {
    if keys == [] then None
    else if KeyText(keys[0]) == key then Some(keys[0])
    else LookupIn(keys[1..], key)
  }

  datatype Tag = Tag(key: TagKey, value: string)

  /** The recognised tag a line carries, if any. */
  function LineTag(line: string): (t: Option<Tag>)
    ensures t.Some? ==> t.value.value != "" && Trimmed(t.value.value)
  {
    var kv := ScanLine(TrimSpace(line));
    if kv.None? then None
    else
      var key := LookupIn(TAG_KEYS, Normalize(kv.value.key));
      var value := TrimSpace(kv.value.value);
      TrimSpaceTrims(kv.value.value);
      if key.None? || value == "" then None else Some(Tag(key.value, value))
  }

  function LineTags(lines: seq<string>): seq<Option<Tag>> {
    seq(|lines|, i requires 0 <= i < |lines| => LineTag(lines[i]))
  }

  /** Each recognised tag is assigned in turn. */
  function AssignAll(tags: seq<Option<Tag>>): WarningTags {
    if tags == [] then NO_TAGS
    else
      var t := AssignAll(tags[..|tags| - 1]);
      match tags[|tags| - 1]
      case None => t
      case Some(tag) => Assign(t, tag.key, tag.value)
  }

  function ParseLines(lines: seq<string>): WarningTags {
    AssignAll(LineTags(lines))
  }

  // ----- the block -----

  /** The text between the first `&&` and the next one, or the end. */
  function Block(description: string): Option<string> {
    var i := FindAmp(description);
    if i < 0 then None
    else
      var rest := description[i + 2..];
      var j := FindAmp(rest);
      Some(if j < 0 then rest else rest[..j])
  }

  function ParseBlock(block: Option<string>): Option<WarningTags> {
    match block
    case None => None
    case Some(text) =>
      var t := ParseLines(Split(text, '\n'));
      if IsEmpty(t) then None else Some(t)
  }

  function ParseTags(description: string): Option<WarningTags> {
    ParseBlock(Block(description))
  }

  /** The loop over the lines of the block. */
  method ParseWarningTags(description: string) returns (r: Option<WarningTags>)
    ensures r == ParseTags(description)
  {
    var i := FindAmp(description);
    if i < 0 {
      return None;
    }
    var block := description[i + 2..];
    var j := FindAmp(block);
    if j >= 0 {
      block := block[..j];
    }
    var lines := Split(block, '\n');
    var tags := NO_TAGS;
    ghost var found := LineTags(lines);
    for n := 0 to |lines|
      invariant tags == AssignAll(found[..n])
    {
      assert found[..n + 1][..n] == found[..n];
      assert found[n] == LineTag(lines[n]);
      var line := TrimSpace(lines[n]);
      if line == "" {
        continue;
      }
      var m := ScanLine(line);
      if m.None? {
        continue;
      }
      var key := Normalize(m.value.key);
      var value := TrimSpace(m.value.value);
      if value == "" {
        continue;
      }
      var tk := LookupIn(TAG_KEYS, key);
      if tk.Some? {
        tags := Assign(tags, tk.value, value);
      }
    }
    assert found[..|lines|] == found;
    if IsEmpty(tags) {
      return None;
    }
    return Some(tags);
  }

  // ----- exactness -----

  predicate NoAmp(s: string) {
    forall k :: 0 <= k < |s| - 1 ==> !(s[k] == '&' && s[k + 1] == '&')
  }

  /** Text that can stand before a delimiter without making another one. */
  predicate Apart(s: string) {
    NoAmp(s) && (s != "" ==> s[|s| - 1] != '&')
  }

  lemma FindAfter(a: string, rest: string)
    requires Apart(a)
    ensures FindAmp(a + "&&" + rest) == |a|
  {
    var s := a + "&&" + rest;
    assert s[|a|] == '&' && s[|a| + 1] == '&';
    forall k | 0 <= k < |a| ensures !(s[k] == '&' && s[k + 1] == '&') {
      assert s[k] == a[k];
      if k + 1 < |a| {
        assert s[k + 1] == a[k + 1];
      }
    }
    FindAmpAt(s, |a|);
  }

  /** The result depends only on the text of the block: neither the prose before it nor what follows it counts. */
  lemma OnlyTheBlockMatters(prose: string, block: string, suffix: string)
    requires Apart(prose)
    ensures Apart(block) ==> ParseTags(prose + "&&" + block + "&&" + suffix) == ParseBlock(Some(block))
    ensures NoAmp(block) ==> ParseTags(prose + "&&" + block) == ParseBlock(Some(block))
    ensures NoAmp(prose) ==> ParseTags(prose) == None
  {
    FindAmpMeaning(block);
    FindAmpMeaning(prose);
    hide FindAmp;
    BlockAfter(prose, block);
    if Apart(block) {
      var rest := block + "&&" + suffix;
      assert prose + "&&" + block + "&&" + suffix == prose + "&&" + rest;
      BlockAfter(prose, rest);
      FindAfter(block, suffix);
      assert rest[..|block|] == block;
    }
  }

  lemma BlockAfter(prose: string, rest: string)
    requires Apart(prose)
    ensures
      var j := FindAmp(rest);
      Block(prose + "&&" + rest) == Some(if j < 0 then rest else rest[..j])
  {
    FindAfter(prose, rest);
    hide FindAmp;
    assert (prose + "&&" + rest)[|prose| + 2..] == rest;
  }

  predicate HasKey(tag: Option<Tag>, k: TagKey) {
    tag.Some? && tag.value.key == k
  }

  /** The last tag with key `k` stands at `i` and holds `v`. */
  predicate LastWith(tags: seq<Option<Tag>>, i: nat, k: TagKey, v: string) {
    i < |tags| && tags[i] == Some(Tag(k, v)) && forall j :: i < j < |tags| ==> !HasKey(tags[j], k)
  }

  lemma AssignLast(tags: seq<Option<Tag>>, k: TagKey)
    requires tags != []
    ensures
      var n := |tags| - 1;
      Get(AssignAll(tags), k) == if HasKey(tags[n], k) then tags[n].value.value else Get(AssignAll(tags[..n]), k)
  {
    hide Get;
    hide Assign;
  }

  /** `v` is what the last tag with key `k` holds, or empty when there is none. */
  ghost predicate HoldsLast(tags: seq<Option<Tag>>, k: TagKey, v: string) {
    if v == "" then forall j :: 0 <= j < |tags| ==> !HasKey(tags[j], k)
    else exists i: nat :: LastWith(tags, i, k, v)
  }

  lemma HoldsLastOneMore(tags: seq<Option<Tag>>, k: TagKey, v: string)
    requires tags != [] && HoldsLast(tags[..|tags| - 1], k, v)
    requires tags[|tags| - 1].Some? ==> tags[|tags| - 1].value.value != ""
    ensures HoldsLast(tags, k, if HasKey(tags[|tags| - 1], k) then tags[|tags| - 1].value.value else v)
  {
    var n := |tags| - 1;
    var init := tags[..n];
    if HasKey(tags[n], k) {
      assert LastWith(tags, n, k, tags[n].value.value);
    } else if v != "" {
      var i: nat :| LastWith(init, i, k, v);
      assert forall j :: 0 <= j < n ==> init[j] == tags[j];
      assert LastWith(tags, i, k, v);
    }
  }

  lemma {:induction false} AssignAllKeepsLast(tags: seq<Option<Tag>>, k: TagKey)
    requires forall i :: 0 <= i < |tags| && tags[i].Some? ==> tags[i].value.value != ""
    ensures HoldsLast(tags, k, Get(AssignAll(tags), k))
  {
    if tags == [] {
    } else {
      var init := tags[..|tags| - 1];
      AssignAllKeepsLast(init, k);
      AssignLast(tags, k);
      hide *;
      HoldsLastOneMore(tags, k, Get(AssignAll(init), k));
    }
  }

  /** No line of these carries a tag with key `k`. */
  predicate NoLine(lines: seq<string>, k: TagKey) {
    forall j :: 0 <= j < |lines| ==> !HasKey(LineTag(lines[j]), k)
  }

  /** The last line with key `k` stands at `i` and holds `v`. */
  predicate LastLine(lines: seq<string>, i: nat, k: TagKey, v: string) {
    i < |lines| && LineTag(lines[i]) == Some(Tag(k, v)) && NoLine(lines[i + 1..], k)
  }

  lemma LastLineIsLastTag(lines: seq<string>, i: nat, k: TagKey, v: string)
    ensures LastLine(lines, i, k, v) <==> LastWith(LineTags(lines), i, k, v)
  {
    hide LineTag;
    if i < |lines| {
      var after, tags := lines[i + 1..], LineTags(lines);
      if LastLine(lines, i, k, v) {
        forall j | i < j < |tags| ensures !HasKey(tags[j], k) {
          assert lines[j] == after[j - i - 1];
        }
      }
      if LastWith(tags, i, k, v) {
        forall m | 0 <= m < |after| ensures !HasKey(LineTag(after[m]), k) {
          assert tags[i + 1 + m] == LineTag(after[m]);
        }
      }
    }
  }

  /** Each field holds the value of the last line with its key, and is empty exactly when there is none. */
  lemma FieldIsLastLine(lines: seq<string>, k: TagKey)
    ensures
      var v := Get(ParseLines(lines), k);
      && (v == "" <==> NoLine(lines, k))
      && (v != "" ==> exists i: nat :: LastLine(lines, i, k, v))
      && (forall i: nat, u :: LastLine(lines, i, k, u) ==> u == v && Trimmed(u) && u != "")
  {
    var tags, v := LineTags(lines), Get(ParseLines(lines), k);
    AssignAllKeepsLast(tags, k);
    assert HoldsLast(tags, k, v);
    assert forall j :: 0 <= j < |lines| ==> tags[j] == LineTag(lines[j]);
    forall i: nat, u ensures LastLine(lines, i, k, u) <==> LastWith(tags, i, k, u) {
      LastLineIsLastTag(lines, i, k, u);
    }
    if v != "" {
      var i: nat :| LastWith(tags, i, k, v);
      assert LastLine(lines, i, k, v);
    }
    assert forall j :: 0 <= j < |tags| && tags[j].Some? ==> tags[j].value.value != "" && Trimmed(tags[j].value.value);
    hide HoldsLast;
    hide LineTags;
    hide ParseLines;
    OnlyOneIsLast(tags, k, v);
  }

  lemma OnlyOneIsLast(tags: seq<Option<Tag>>, k: TagKey, v: string)
    requires forall j :: 0 <= j < |tags| && tags[j].Some? ==> tags[j].value.value != "" && Trimmed(tags[j].value.value)
    requires HoldsLast(tags, k, v)
    ensures v == "" <==> forall j :: 0 <= j < |tags| ==> !HasKey(tags[j], k)
    ensures forall i: nat, u :: LastWith(tags, i, k, u) ==> u == v && Trimmed(u) && u != ""
  {
    if v != "" {
      var i: nat :| LastWith(tags, i, k, v);
      assert HasKey(tags[i], k);
      forall m: nat, u | LastWith(tags, m, k, u) ensures u == v && m == i {
        assert HasKey(tags[m], k);
      }
    } else {
      forall i: nat, u ensures !LastWith(tags, i, k, u) {
        if LastWith(tags, i, k, u) {
          NotHeld(tags, i, k, u);
        }
      }
    }
  }

  lemma NotHeld(tags: seq<Option<Tag>>, i: nat, k: TagKey, u: string)
    requires LastWith(tags, i, k, u)
    ensures exists j :: 0 <= j < |tags| && HasKey(tags[j], k)
  {
    assert HasKey(tags[i], k);
  }

  lemma {:induction false} AssignAllSkips(before: seq<Option<Tag>>, after: seq<Option<Tag>>)
    ensures AssignAll(before + [None] + after) == AssignAll(before + after)
  {
    if after == [] {
      assert (before + [None] + after)[..|before|] == before;
      assert before + after == before;
    } else {
      var n := |after| - 1;
      AssignAllSkips(before, after[..n]);
      assert (before + [None] + after)[..|before| + 1 + n] == before + [None] + after[..n];
      assert (before + after)[..|before| + n] == before + after[..n];
    }
  }

  /** A line with no recognised tag changes nothing, wherever it stands. */
  lemma UnrecognisedLineIsIgnored(before: seq<string>, line: string, after: seq<string>)
    requires LineTag(line).None?
    ensures ParseLines(before + [line] + after) == ParseLines(before + after)
  {
    var none := LineTag(line);
    hide LineTag;
    AssignAllSkips(LineTags(before), LineTags(after));
    assert LineTags(before + [line] + after) == LineTags(before) + [None] + LineTags(after);
    assert LineTags(before + after) == LineTags(before) + LineTags(after);
  }

  // ----- round trip -----

  /** A value that survives rendering. */
  predicate Renderable(v: string) {
    v != "" && Trimmed(v) && '\n' !in v && NoAmp(v) && v[0] != '.'
  }

  function RenderLine(k: TagKey, v: string): string {
    KeyText(k) + "..." + v
  }

  /** One line per key, each ended by a newline. */
  function RenderLines(t: WarningTags, keys: seq<TagKey>): string {
    if keys == [] then "" else RenderLine(keys[0], Get(t, keys[0])) + "\n" + RenderLines(t, keys[1..])
  }

  predicate UpperWord(w: string) {
    w != "" && forall j :: 0 <= j < |w| ==> IsUpper(w[j])
  }

  predicate UpperWords(words: seq<string>) {
    forall i :: 0 <= i < |words| ==> UpperWord(words[i])
  }

  lemma CanonicalWords()
    ensures UpperWord("TORNADO") && UpperWord("DAMAGE") && UpperWord("THREAT") && UpperWord("HAIL")
    ensures UpperWord("MAX") && UpperWord("SIZE") && UpperWord("WIND") && UpperWord("GUST")
    ensures UpperWord("THUNDERSTORM") && UpperWord("FLASH") && UpperWord("FLOOD") && UpperWord("EXPECTED")
    ensures UpperWord("RAINFALL") && UpperWord("RATE") && UpperWord("SPOTTER") && UpperWord("ACTIVATION")
    ensures UpperWord("SOURCE")
  {}

  lemma KeyWordsAreUpper(k: TagKey)
    ensures UpperWords(KeyWords(k)) && |KeyWords(k)| > 0
    ensures forall i :: 0 <= i < |KeyWords(k)| ==> IsWord(KeyWords(k)[i])
  {
    CanonicalWords();
    hide UpperWord;
    assert UpperWords(KeyWords(k));
    UpperIsWord(KeyWords(k));
  }

  lemma UpperIsWord(words: seq<string>)
    requires UpperWords(words)
    ensures forall i :: 0 <= i < |words| ==> IsWord(words[i])
  {}

  lemma {:induction false} JoinUpper(words: seq<string>)
    requires UpperWords(words) && |words| > 0
    ensures
      var s := Join(words);
      && |s| > 0 && IsUpper(s[0]) && IsUpper(s[|s| - 1])
      && forall i :: 0 <= i < |s| ==> IsUpper(s[i]) || s[i] == ' '
  {
    if |words| <= 1 {
    } else {
      JoinUpper(words[1..]);
    }
  }

  lemma KeyTextShape(k: TagKey)
    ensures Fields(KeyText(k)) == KeyWords(k)
    ensures KeyLike(KeyText(k))
  {
    KeyWordsAreUpper(k);
    FieldsOfJoin(KeyWords(k));
    JoinUpper(KeyWords(k));
  }

  lemma KeyTextInjective(k: TagKey, j: TagKey)
    requires KeyText(k) == KeyText(j)
    ensures k == j
  {
    KeyTextShape(k);
    KeyTextShape(j);
    KeyWordsInjective(k, j);
  }

  lemma KeyWordsInjective(k: TagKey, j: TagKey)
    requires KeyWords(k) == KeyWords(j)
    ensures k == j
  {
    var u, v := KeyWords(k), KeyWords(j);
    assert |u| == |v| && u[0] == v[0] && |u[0]| == |v[0]| && u[0][0] == v[0][0] && u[|u| - 1][0] == v[|v| - 1][0];
  }

  /** A canonical key is its own normal form and is found in the table. */
  lemma KeyIsFound(k: TagKey)
    ensures LookupIn(TAG_KEYS, Normalize(KeyText(k))) == Some(k)
  {
    KeyTextShape(k);
    assert ToUpper(KeyText(k)) == KeyText(k);
    assert k in TAG_KEYS;
    var found := LookupIn(TAG_KEYS, KeyText(k));
    KeyTextInjective(k, found.value);
  }

  predicate KeyLike(key: string) {
    && |key| >= 2 && IsUpper(key[0]) && IsUpper(key[|key| - 1])
    && forall i :: 0 <= i < |key| ==> IsUpper(key[i]) || key[i] == ' '
  }

  lemma KeyRunIs(s: string, n: nat)
    requires n < |s| && !IsKeyChar(s[n]) && forall i :: 0 <= i < n ==> IsKeyChar(s[i])
    ensures KeyRun(s) == n
  {
    hide KeyRun;
  }

  lemma DotRunIs(s: string, n: nat)
    requires n < |s| && s[n] != '.' && forall i :: 0 <= i < n ==> s[i] == '.'
    ensures DotRun(s) == n
  {
    hide DotRun;
  }

  lemma KeyAndDots(key: string, v: string)
    requires KeyLike(key) && v != "" && v[0] != '.'
    ensures KeyRun(key + "..." + v) == |key|
    ensures DotRun("..." + v) == 3
  {
    hide KeyRun;
    hide DotRun;
    var line, tail := key + "..." + v, "..." + v;
    assert forall i :: 0 <= i < |key| ==> line[i] == key[i];
    KeyRunIs(line, |key|);
    assert tail[3] == v[0];
    DotRunIs(tail, 3);
  }

  /** Scanning a line that is a key, three dots and a value. */
  lemma ScanKeyValue(key: string, v: string)
    requires KeyLike(key) && v != "" && v[0] != '.'
    ensures ScanLine(key + "..." + v) == Some(KeyValue(key, v))
  {
    hide KeyRun;
    hide DotRun;
    var line, n := key + "..." + v, |key|;
    KeyAndDots(key, v);
    assert line[n..] == "..." + v && line[..n] == key && line[n + 3..] == v;
    assert line[0] == key[0] && line[n - 1] == key[n - 1];
  }

  lemma LineIsTrimmed(key: string, v: string)
    requires KeyLike(key) && v != "" && Trimmed(v)
    ensures TrimSpace(key + "..." + v) == key + "..." + v
  {
    var line := key + "..." + v;
    assert line[0] == key[0] && line[|line| - 1] == v[|v| - 1];
    TrimSpaceTrims(line);
  }

  lemma RenderedLineParses(k: TagKey, v: string)
    requires Renderable(v)
    ensures LineTag(RenderLine(k, v)) == Some(Tag(k, v))
  {
    KeyTextShape(k);
    hide KeyText;
    ScanKeyValue(KeyText(k), v);
    LineIsTrimmed(KeyText(k), v);
    KeyIsFound(k);
    TrimSpaceTrims(v);
  }

  lemma KeyValueIsOneLine(key: string, v: string)
    requires KeyLike(key) && Renderable(v)
    ensures
      var line := key + "..." + v;
      '\n' !in line && NoAmp(line)
  {
    var line := key + "..." + v;
    assert forall i :: 0 <= i < |key| ==> line[i] == key[i];
    forall i | 0 <= i < |line| - 1 ensures !(line[i] == '&' && line[i + 1] == '&') {
      if i >= |key| + 3 {
        assert line[i] == v[i - |key| - 3] && line[i + 1] == v[i - |key| - 2];
      }
    }
  }

  lemma RenderedLineIsOneLine(k: TagKey, v: string)
    requires Renderable(v)
    ensures '\n' !in RenderLine(k, v) && NoAmp(RenderLine(k, v))
  {
    KeyTextShape(k);
    hide KeyText;
    KeyValueIsOneLine(KeyText(k), v);
  }

  predicate AllRenderable(t: WarningTags, keys: seq<TagKey>) {
    forall i :: 0 <= i < |keys| ==> Renderable(Get(t, keys[i]))
  }

  function LinesOf(t: WarningTags, keys: seq<TagKey>): seq<string> {
    seq(|keys|, i requires 0 <= i < |keys| => RenderLine(keys[i], Get(t, keys[i])))
  }

  lemma {:induction false} RenderedLinesSplit(t: WarningTags, keys: seq<TagKey>)
    requires AllRenderable(t, keys)
    ensures Split(RenderLines(t, keys), '\n') == LinesOf(t, keys) + [""]
  {
    if keys == [] {
      assert LinesOf(t, keys) == [];
    } else {
      var rest, line := keys[1..], RenderLine(keys[0], Get(t, keys[0]));
      RenderedLinesSplit(t, rest);
      RenderedLineIsOneLine(keys[0], Get(t, keys[0]));
      hide Split;
      assert RenderLines(t, keys) == line + ['\n'] + RenderLines(t, rest);
      SplitAtSeparator(line, RenderLines(t, rest), '\n');
      assert LinesOf(t, keys) == [line] + LinesOf(t, rest);
      assert [line] + (LinesOf(t, rest) + [""]) == LinesOf(t, keys) + [""];
    }
  }

  lemma {:induction false} RenderedLinesApart(t: WarningTags, keys: seq<TagKey>)
    requires AllRenderable(t, keys)
    ensures Apart(RenderLines(t, keys))
  {
    if keys == [] {
    } else {
      RenderedLinesApart(t, keys[1..]);
      RenderedLineIsOneLine(keys[0], Get(t, keys[0]));
      AppendLine(RenderLine(keys[0], Get(t, keys[0])), RenderLines(t, keys[1..]));
    }
  }

  lemma AppendLine(line: string, text: string)
    requires NoAmp(line) && Apart(text)
    ensures Apart(line + ['\n'] + text)
  {
    var s := line + ['\n'] + text;
    forall k | 0 <= k < |s| - 1 ensures !(s[k] == '&' && s[k + 1] == '&') {
      if k > |line| {
        assert s[k] == text[k - |line| - 1] && s[k + 1] == text[k - |line|];
      }
    }
  }

  /** The tags a rendered block carries, between the empty first and last lines. */
  function RenderedTags(t: WarningTags, keys: seq<TagKey>): seq<Option<Tag>> {
    [None] + seq(|keys|, i requires 0 <= i < |keys| => Some(Tag(keys[i], Get(t, keys[i])))) + [None]
  }

  lemma RenderedTagsRestore(t: WarningTags, keys: seq<TagKey>)
    requires AllRenderable(t, keys) && forall k :: Get(t, k) != "" ==> k in keys
    ensures AssignAll(RenderedTags(t, keys)) == t
  {
    var tags := RenderedTags(t, keys);
    forall k ensures Get(AssignAll(tags), k) == Get(t, k) {
      AssignAllKeepsLast(tags, k);
      if k in keys {
        var i :| 0 <= i < |keys| && keys[i] == k;
        assert HasKey(tags[i + 1], k);
      }
    }
    SameFieldsSameTags(AssignAll(tags), t);
  }

  lemma EmptyLineHasNoTag()
    ensures LineTag("").None?
  {}

  lemma RenderedLineTags(t: WarningTags, keys: seq<TagKey>, i: nat)
    requires AllRenderable(t, keys) && i < |keys| + 2
    ensures
      var lines := [""] + LinesOf(t, keys) + [""];
      LineTags(lines)[i] == RenderedTags(t, keys)[i]
  {
    hide LineTag;
    hide RenderLine;
    EmptyLineHasNoTag();
    if 0 < i <= |keys| {
      RenderedLineParses(keys[i - 1], Get(t, keys[i - 1]));
    }
  }

  lemma RenderedLinesTags(t: WarningTags, keys: seq<TagKey>)
    requires AllRenderable(t, keys)
    ensures ParseLines(Split("\n" + RenderLines(t, keys), '\n')) == AssignAll(RenderedTags(t, keys))
  {
    var text, lines := RenderLines(t, keys), [""] + LinesOf(t, keys) + [""];
    RenderedLinesSplit(t, keys);
    assert "\n" + text == "" + ['\n'] + text;
    SplitAtSeparator("", text, '\n');
    hide Split;
    hide RenderLines;
    assert [""] + (LinesOf(t, keys) + [""]) == lines;
    LinesCarryTags(t, keys);
  }

  lemma LinesCarryTags(t: WarningTags, keys: seq<TagKey>)
    requires AllRenderable(t, keys)
    ensures LineTags([""] + LinesOf(t, keys) + [""]) == RenderedTags(t, keys)
  {
    var found, expected := LineTags([""] + LinesOf(t, keys) + [""]), RenderedTags(t, keys);
    assert |found| == |expected|;
    forall i | 0 <= i < |found| ensures found[i] == expected[i] {
      hide LineTags;
      hide RenderedTags;
      hide LinesOf;
      RenderedLineTags(t, keys, i);
    }
  }

  function RenderBlock(t: WarningTags, keys: seq<TagKey>): string {
    "\n" + RenderLines(t, keys)
  }

  lemma RenderedBlockParses(t: WarningTags, keys: seq<TagKey>)
    requires AllRenderable(t, keys) && forall k :: Get(t, k) != "" ==> k in keys
    ensures ParseBlock(Some(RenderBlock(t, keys))) == if IsEmpty(t) then None else Some(t)
  {
    hide Split;
    hide RenderLines;
    RenderedLinesTags(t, keys);
    RenderedTagsRestore(t, keys);
  }

  lemma RenderedBlockApart(t: WarningTags, keys: seq<TagKey>)
    requires AllRenderable(t, keys)
    ensures Apart(RenderBlock(t, keys)) && NoAmp(RenderBlock(t, keys))
  {
    RenderedLinesApart(t, keys);
    AppendLine("", RenderLines(t, keys));
    assert RenderBlock(t, keys) == "" + ['\n'] + RenderLines(t, keys);
  }

  /**
   Rendering and parsing are inverse: a block with one line per non-empty field, in any order and
   inside any description, parses back to the same tags.
   */
  lemma TagsRoundTrip(t: WarningTags, keys: seq<TagKey>, prose: string, suffix: string)
    requires AllRenderable(t, keys) && forall k :: Get(t, k) != "" ==> k in keys
    requires Apart(prose)
    ensures
      var expected := if IsEmpty(t) then None else Some(t);
      && ParseTags(prose + "&&" + RenderBlock(t, keys) + "&&" + suffix) == expected
      && ParseTags(prose + "&&" + RenderBlock(t, keys)) == expected
  {
    RenderedBlockParses(t, keys);
    RenderedBlockApart(t, keys);
    hide *;
    OnlyTheBlockMatters(prose, RenderBlock(t, keys), suffix);
  }

  // ----- the keys, spelled out -----

  lemma JoinTwo(a: string, b: string)
    ensures Join([a, b]) == a + " " + b
  {
    assert [a, b][1..] == [b];
  }

  lemma JoinThree(a: string, b: string, c: string)
    ensures Join([a, b, c]) == a + " " + (b + " " + c)
  {
    assert [a, b, c][1..] == [b, c];
    JoinTwo(b, c);
  }

  lemma TornadoTexts()
    ensures KeyText(Tornado) == "TORNADO" && KeyText(TornadoDamageThreat) == "TORNADO DAMAGE THREAT"
  {
    JoinThree("TORNADO", "DAMAGE", "THREAT");
  }

  lemma HailTexts()
    ensures KeyText(Hail) == "HAIL" && KeyText(MaxHailSize) == "MAX HAIL SIZE"
  {
    JoinThree("MAX", "HAIL", "SIZE");
  }

  lemma WindTexts()
    ensures KeyText(Wind) == "WIND" && KeyText(MaxWindGust) == "MAX WIND GUST"
    ensures KeyText(ThunderstormDamageThreat) == "THUNDERSTORM DAMAGE THREAT"
  {
    JoinThree("MAX", "WIND", "GUST");
    JoinThree("THUNDERSTORM", "DAMAGE", "THREAT");
  }

  lemma FloodTexts()
    ensures KeyText(FlashFlood) == "FLASH FLOOD" && KeyText(ExpectedRainfallRate) == "EXPECTED RAINFALL RATE"
  {
    JoinTwo("FLASH", "FLOOD");
    JoinThree("EXPECTED", "RAINFALL", "RATE");
  }

  lemma FloodThreatText()
    ensures KeyText(FlashFloodDamageThreat) == "FLASH FLOOD DAMAGE THREAT"
  {
    var words := ["FLASH", "FLOOD", "DAMAGE", "THREAT"];
    assert words[1..] == ["FLOOD", "DAMAGE", "THREAT"];
    JoinThree("FLOOD", "DAMAGE", "THREAT");
  }

  lemma OtherTexts()
    ensures KeyText(SpotterActivation) == "SPOTTER ACTIVATION" && KeyText(Source) == "SOURCE"
  {
    JoinTwo("SPOTTER", "ACTIVATION");
  }

  lemma AssignOne(tag: Tag)
    ensures AssignAll([Some(tag)]) == Assign(NO_TAGS, tag.key, tag.value)
  {
    hide Assign;
    assert [Some(tag)][..0] == [];
  }

  lemma OneLine(k: TagKey, text: string, v: string)
    requires Renderable(v) && KeyText(k) == text
    ensures ParseLines([text + "..." + v]) == Assign(NO_TAGS, k, v)
  {
    RenderedLineParses(k, v);
    AssignOne(Tag(k, v));
    hide KeyText;
    hide LineTag;
    hide AssignAll;
    hide Assign;
    assert LineTags([text + "..." + v]) == [Some(Tag(k, v))];
  }

  /** Each key, as it is written, sets the field of its name. */
  lemma EveryKeySetsItsField(v: string)
    requires Renderable(v)
    ensures ParseLines(["TORNADO" + "..." + v]).tornado == v
    ensures ParseLines(["TORNADO DAMAGE THREAT" + "..." + v]).tornadoDamageThreat == v
    ensures ParseLines(["HAIL" + "..." + v]).hail == v
    ensures ParseLines(["MAX HAIL SIZE" + "..." + v]).maxHailSize == v
    ensures ParseLines(["WIND" + "..." + v]).wind == v
    ensures ParseLines(["MAX WIND GUST" + "..." + v]).maxWindGust == v
    ensures ParseLines(["THUNDERSTORM DAMAGE THREAT" + "..." + v]).thunderstormDamageThreat == v
    ensures ParseLines(["FLASH FLOOD" + "..." + v]).flashFlood == v
    ensures ParseLines(["FLASH FLOOD DAMAGE THREAT" + "..." + v]).flashFloodDamageThreat == v
    ensures ParseLines(["EXPECTED RAINFALL RATE" + "..." + v]).expectedRainfallRate == v
    ensures ParseLines(["SPOTTER ACTIVATION" + "..." + v]).spotterActivation == v
    ensures ParseLines(["SOURCE" + "..." + v]).source == v
  {
    hide KeyText;
    hide ParseLines;
    TornadoTexts();
    HailTexts();
    WindTexts();
    FloodTexts();
    FloodThreatText();
    OtherTexts();
    OneLine(Tornado, "TORNADO", v);
    OneLine(TornadoDamageThreat, "TORNADO DAMAGE THREAT", v);
    OneLine(Hail, "HAIL", v);
    OneLine(MaxHailSize, "MAX HAIL SIZE", v);
    OneLine(Wind, "WIND", v);
    OneLine(MaxWindGust, "MAX WIND GUST", v);
    OneLine(ThunderstormDamageThreat, "THUNDERSTORM DAMAGE THREAT", v);
    OneLine(FlashFlood, "FLASH FLOOD", v);
    OneLine(FlashFloodDamageThreat, "FLASH FLOOD DAMAGE THREAT", v);
    OneLine(ExpectedRainfallRate, "EXPECTED RAINFALL RATE", v);
    OneLine(SpotterActivation, "SPOTTER ACTIVATION", v);
    OneLine(Source, "SOURCE", v);
  }

  /**
   A line carries a tag exactly when it scans, its key normalises to the tag's, and its trimmed value is not
   empty.
   */
  lemma LineTagExactly(line: string, k: TagKey, v: string)
    ensures LineTag(line) == Some(Tag(k, v)) <==>
      && v != ""
      && ScanLine(TrimSpace(line)).Some?
      && Normalize(ScanLine(TrimSpace(line)).value.key) == KeyText(k)
      && TrimSpace(ScanLine(TrimSpace(line)).value.value) == v
  {
    KeyIsFound(k);
    hide KeyText;
    hide ScanLine;
    hide Normalize;
    hide TrimSpace;
    hide LookupIn;
  }
}
