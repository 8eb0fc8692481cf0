/** P-VTEC parsing: the identity of a logical warning (internal/nws/vtec.go). */
module VtecParser {
  import opened Common
  import opened Text

  datatype Vtec = Vtec(
    productClass: string,
    action: string,
    office: string,
    phenomenon: string,
    significance: string,
    etn: string)

  function EventID(v: Vtec): string {
    v.office + "." + v.phenomenon + "." + v.significance + "." + v.etn
  }

  predicate AllUpper(s: string) {
    forall i :: 0 <= i < |s| ==> 'A' <= s[i] <= 'Z'
  }

  predicate AllDigits(s: string) {
    forall i :: 0 <= i < |s| ==> '0' <= s[i] <= '9'
  }

  /** What the six groups of the pattern can hold. */
  predicate Shape(v: Vtec) {
    && v.productClass in ["O", "T", "E", "X"]
    && |v.action| == 3 && AllUpper(v.action)
    && |v.office| == 4 && AllUpper(v.office)
    && |v.phenomenon| == 2 && AllUpper(v.phenomenon)
    && |v.significance| == 1 && AllUpper(v.significance)
    && |v.etn| == 4 && AllDigits(v.etn)
  }

  const WIDTH := 22

  /** The fixed-width pattern `/c.AAA.OOOO.PP.S.NNNN.` at position `i`. */
  function MatchAt(s: string, i: nat): (v: Option<Vtec>)
    ensures v.Some? ==> Shape(v.value)
  {
    if i + WIDTH > |s| then None
    else
      var v := Vtec(s[i + 1..i + 2], s[i + 3..i + 6], s[i + 7..i + 11],
                    s[i + 12..i + 14], s[i + 15..i + 16], s[i + 17..i + 21]);
      if s[i] == '/' && s[i + 2] == '.' && s[i + 6] == '.' && s[i + 11] == '.' && s[i + 14] == '.' && s[i + 16] == '.'
         && s[i + 21] == '.' && Shape(v)
      then Some(v)
      else None
  }

  /** The leftmost match at or after `i`. */
  function Scan(s: string, i: nat): (v: Option<Vtec>)
    ensures v.Some? ==> Shape(v.value)
    decreases |s| - i
  {
    if i + WIDTH > |s| then None
    else if MatchAt(s, i).Some? then MatchAt(s, i)
    else Scan(s, i + 1)
  }

  function Format(v: Vtec): string {
    "/" + v.productClass + "." + v.action + "." + v.office + "."
    + v.phenomenon + "." + v.significance + "." + v.etn + "."
  }

  lemma FormatParts(v: Vtec)
    requires Shape(v)
    ensures
      var f := Format(v);
      && |f| == WIDTH
      && f[0] == '/' && f[2] == '.' && f[6] == '.' && f[11] == '.' && f[14] == '.' && f[16] == '.' && f[21] == '.'
      && f[1..2] == v.productClass && f[3..6] == v.action && f[7..11] == v.office
      && f[12..14] == v.phenomenon && f[15..16] == v.significance && f[17..21] == v.etn
  {
    assert |v.productClass| == 1;
    var p3 := "/" + v.productClass + ".";
    var p7 := p3 + v.action + ".";
    var p12 := p7 + v.office + ".";
    var p15 := p12 + v.phenomenon + ".";
    var p17 := p15 + v.significance + ".";
    var f := p17 + v.etn + ".";
    assert p3[0] == '/' && p3[1..2] == v.productClass && p3[2] == '.';
    assert f[..17] == p17 && f[17..21] == v.etn && f[21] == '.';
    assert p17[..15] == p15 && p17[15..16] == v.significance && p17[16] == '.';
    assert p15[..12] == p12 && p15[12..14] == v.phenomenon && p15[14] == '.';
    assert p12[..7] == p7 && p12[7..11] == v.office && p12[11] == '.';
    assert p7[..3] == p3 && p7[3..6] == v.action && p7[6] == '.';
  }

  lemma SliceOfSlice(s: string, n: nat, f: string, lo: nat, hi: nat)
    requires n + |f| <= |s| && s[n..n + |f|] == f && lo <= hi <= |f|
    ensures s[n + lo..n + hi] == f[lo..hi]
    ensures lo < |f| ==> s[n + lo] == f[lo]
  {
    assert forall k :: 0 <= k < |f| ==> f[k] == s[n + k];
  }

  lemma FormatMatches(prefix: string, v: Vtec, suffix: string)
    requires Shape(v)
    ensures MatchAt(prefix + Format(v) + suffix, |prefix|) == Some(v)
  {
    var s, n, f := prefix + Format(v) + suffix, |prefix|, Format(v);
    FormatParts(v);
    assert s[n..n + |f|] == f;
    SliceOfSlice(s, n, f, 0, 0);
    SliceOfSlice(s, n, f, 1, 2);
    SliceOfSlice(s, n, f, 2, 2);
    SliceOfSlice(s, n, f, 3, 6);
    SliceOfSlice(s, n, f, 6, 6);
    SliceOfSlice(s, n, f, 7, 11);
    SliceOfSlice(s, n, f, 11, 11);
    SliceOfSlice(s, n, f, 12, 14);
    SliceOfSlice(s, n, f, 14, 14);
    SliceOfSlice(s, n, f, 15, 16);
    SliceOfSlice(s, n, f, 16, 16);
    SliceOfSlice(s, n, f, 17, 21);
    SliceOfSlice(s, n, f, 21, 21);
  }

  /** A prefix of `f` grows by the part that follows it. */
  lemma Grow(f: string, k: nat, n: nat, prefix: string, part: string)
    requires k <= n <= |f| && prefix == f[..k] && part == f[k..n]
    ensures prefix + part == f[..n]
  {}

  lemma PartsFormat(f: string, v: Vtec)
    requires |f| == WIDTH && MatchAt(f, 0) == Some(v)
    ensures f == Format(v)
  {
    assert f[0..1] == "/" && f[2..3] == "." && f[6..7] == "." && f[11..12] == ".";
    assert f[14..15] == "." && f[16..17] == "." && f[21..22] == ".";
    hide Shape;
    Grow(f, 1, 2, "/", v.productClass);
    Grow(f, 2, 3, f[..2], ".");
    Grow(f, 3, 6, f[..3], v.action);
    Grow(f, 6, 7, f[..6], ".");
    Grow(f, 7, 11, f[..7], v.office);
    Grow(f, 11, 12, f[..11], ".");
    Grow(f, 12, 14, f[..12], v.phenomenon);
    Grow(f, 14, 15, f[..14], ".");
    Grow(f, 15, 16, f[..15], v.significance);
    Grow(f, 16, 17, f[..16], ".");
    Grow(f, 17, 21, f[..17], v.etn);
    Grow(f, 21, 22, f[..21], ".");
  }

  lemma MatchIsLocal(s: string, i: nat)
    requires i + WIDTH <= |s|
    ensures MatchAt(s, i) == MatchAt(s[i..i + WIDTH], 0)
  {
    var f := s[i..i + WIDTH];
    SliceOfSlice(s, i, f, 1, 2);
    SliceOfSlice(s, i, f, 3, 6);
    SliceOfSlice(s, i, f, 7, 11);
    SliceOfSlice(s, i, f, 12, 14);
    SliceOfSlice(s, i, f, 15, 16);
    SliceOfSlice(s, i, f, 17, 21);
    hide Shape;
  }

  /** A match is exactly a formatted P-VTEC standing at that place. */
  lemma MatchExactly(s: string, i: nat, v: Vtec)
    ensures MatchAt(s, i) == Some(v) <==> Shape(v) && i + WIDTH <= |s| && s[i..i + WIDTH] == Format(v)
  {
    if Shape(v) && i + WIDTH <= |s| && s[i..i + WIDTH] == Format(v) {
      hide Shape;
      hide Format;
      assert s == s[..i] + Format(v) + s[i + WIDTH..];
      FormatMatches(s[..i], v, s[i + WIDTH..]);
    }
    if MatchAt(s, i) == Some(v) {
      MatchIsLocal(s, i);
      hide Shape;
      PartsFormat(s[i..i + WIDTH], v);
    }
  }

  /** The scan finds the first match, if there is one. */
  lemma {:induction false} ScanIsLeftmost(s: string, i: nat)
    ensures Scan(s, i).None? ==> forall k: nat :: i <= k ==> MatchAt(s, k).None?
    ensures Scan(s, i).Some? ==> exists n: nat ::
      i <= n && MatchAt(s, n) == Scan(s, i) && forall k: nat :: i <= k < n ==> MatchAt(s, k).None?
    decreases |s| - i
  {
    if i + WIDTH > |s| {
      assert forall k: nat :: i <= k ==> MatchAt(s, k).None?;
    } else {
      hide MatchAt;
      hide Shape;
      if MatchAt(s, i).None? {
        ScanIsLeftmost(s, i + 1);
      }
    }
  }

  lemma {:induction false} ScanSkips(s: string, i: nat, n: nat)
    requires i <= n && MatchAt(s, n).Some?
    requires forall k: nat :: i <= k < n ==> MatchAt(s, k).None?
    ensures Scan(s, i) == MatchAt(s, n)
    decreases n - i
  {
    if i == n {
    } else {
      ScanSkips(s, i + 1, n);
    }
  }

  /** A formatted P-VTEC is read back whatever surrounds it, unless an earlier match stands before it. */
  lemma RoundTrip(prefix: string, v: Vtec, suffix: string)
    requires Shape(v)
    requires forall k: nat :: k < |prefix| ==> MatchAt(prefix + Format(v) + suffix, k).None?
    ensures Scan(prefix + Format(v) + suffix, 0) == Some(v)
  {
    FormatMatches(prefix, v, suffix);
    ScanSkips(prefix + Format(v) + suffix, 0, |prefix|);
  }

  /** The event id keeps office, phenomenon, significance and number apart, since their widths are fixed. */
  lemma EventIDInjective(v: Vtec, w: Vtec)
    requires Shape(v) && Shape(w)
    ensures EventID(v) == EventID(w) <==>
      v.office == w.office && v.phenomenon == w.phenomenon && v.significance == w.significance && v.etn == w.etn
    ensures EventID(v) != ""
    ensures forall c :: c in EventID(v) ==> c == '.' || IsUpper(c) || '0' <= c <= '9'
  {
    EventIDParts(v);
    EventIDParts(w);
  }

  lemma EventIDParts(v: Vtec)
    requires Shape(v)
    ensures
      var s := EventID(v);
      && |s| == 14
      && s[0..4] == v.office && s[5..7] == v.phenomenon && s[8..9] == v.significance && s[10..14] == v.etn
      && forall c :: c in s ==> c == '.' || IsUpper(c) || '0' <= c <= '9'
  {
    var p5 := v.office + ".";
    var p8 := p5 + v.phenomenon + ".";
    var p10 := p8 + v.significance + ".";
    var s := p10 + v.etn;
    assert p5[..4] == v.office;
    assert p8[..5] == p5 && p8[5..7] == v.phenomenon;
    assert p10[..8] == p8 && p10[8..9] == v.significance;
    assert s[..10] == p10 && s[10..14] == v.etn;
  }

  lemma EmptyScansToNothing()
    ensures Scan("", 0).None?
  {}

  const EXAMPLE := Vtec("O", "CON", "KIND", "FL", "W", "0102")

  lemma ExampleFormat()
    ensures Shape(EXAMPLE) && Format(EXAMPLE) == "/O.CON.KIND.FL.W.0102."
  {}

  lemma ExampleEventID()
    ensures EventID(EXAMPLE) == "KIND.FL.W.0102"
  {}

  /** The example that documents the format, with its event id. */
  lemma DocumentedExample()
    ensures EventID(EXAMPLE) == "KIND.FL.W.0102"
    ensures Scan("/O.CON.KIND.FL.W.0102." + "000000T0000Z-260531T1800Z/", 0) == Some(EXAMPLE)
  {
    ExampleFormat();
    ExampleEventID();
    hide EventID;
    hide Format;
    hide Shape;
    hide Scan;
    var tail := "000000T0000Z-260531T1800Z/";
    RoundTrip("", EXAMPLE, tail);
    assert "" + Format(EXAMPLE) + tail == "/O.CON.KIND.FL.W.0102." + tail;
  }

  /** (nil, nil), (nil, err) and (v, nil). */
  datatype Parsed = Missing | Drift | Found(vtec: Vtec)

  /** Over the raw values in order: the first that parses wins. */
  function ParseValues(raw: seq<string>): (r: Parsed)
    ensures r.Found? ==> Shape(r.vtec)
  {
    if raw == [] then Missing
    else
      var v := Scan(TrimSpace(raw[0]), 0);
      if v.Some? then Found(v.value)
      else
        var rest := ParseValues(raw[1..]);
        if rest.Missing? && TrimSpace(raw[0]) != "" then Drift else rest
  }

  /** What the three results mean. */
  lemma {:induction false} ParseValuesMeaning(raw: seq<string>)
    ensures ParseValues(raw).Missing? <==> forall i :: 0 <= i < |raw| ==> TrimSpace(raw[i]) == ""
    ensures ParseValues(raw).Found? <==> exists i :: 0 <= i < |raw| && Scan(TrimSpace(raw[i]), 0).Some?
    ensures ParseValues(raw).Found? ==> exists k ::
      && 0 <= k < |raw| && Scan(TrimSpace(raw[k]), 0) == Some(ParseValues(raw).vtec)
      && forall j :: 0 <= j < k ==> Scan(TrimSpace(raw[j]), 0).None?
  {
    if raw == [] {
    } else {
      var rest := raw[1..];
      ParseValuesMeaning(rest);
      assert forall i :: 1 <= i < |raw| ==> raw[i] == rest[i - 1];
      assert forall i :: 0 <= i < |rest| ==> rest[i] == raw[i + 1];
      if Scan(TrimSpace(raw[0]), 0).None? && ParseValues(rest).Found? {
        var k :| 0 <= k < |rest| && Scan(TrimSpace(rest[k]), 0) == Some(ParseValues(rest).vtec)
          && forall j :: 0 <= j < k ==> Scan(TrimSpace(rest[j]), 0).None?;
        assert Scan(TrimSpace(raw[k + 1]), 0) == Some(ParseValues(raw).vtec);
      }
    }
  }

  function ParseVtec(params: map<string, seq<string>>): (r: Parsed)
    ensures r.Found? ==> Shape(r.vtec)
  {
    if "VTEC" in params then ParseValues(params["VTEC"]) else Missing
  }

  /** Of the raw values the one at `k` is the first that holds a P-VTEC. */
  predicate FirstToParse(raw: seq<string>, k: nat, v: Vtec) {
    && k < |raw| && Scan(TrimSpace(raw[k]), 0) == Some(v)
    && forall j :: 0 <= j < k ==> Scan(TrimSpace(raw[j]), 0).None?
  }

  method ParseVTEC(params: map<string, seq<string>>) returns (r: Parsed)
    ensures r == ParseVtec(params)
    ensures r.Missing? <==>
      ("VTEC" in params ==> forall i :: 0 <= i < |params["VTEC"]| ==> TrimSpace(params["VTEC"][i]) == "")
    ensures r.Found? ==> "VTEC" in params && exists k: nat :: FirstToParse(params["VTEC"], k, r.vtec)
    ensures r.Drift? ==>
      "VTEC" in params && forall i :: 0 <= i < |params["VTEC"]| ==> Scan(TrimSpace(params["VTEC"][i]), 0).None?
  {
    if "VTEC" in params {
      ParseValuesMeaning(params["VTEC"]);
    }
    hide Scan;
    hide TrimSpace;
    if "VTEC" !in params || |params["VTEC"]| == 0 {
      return Missing;
    }
    var raw := params["VTEC"];
    var sawNonBlank := false;
    for i := 0 to |raw|
      invariant forall j :: 0 <= j < i ==> Scan(TrimSpace(raw[j]), 0).None?
      invariant ParseValues(raw)
             == if sawNonBlank && ParseValues(raw[i..]).Missing? then Drift else ParseValues(raw[i..])
    {
      assert raw[i..][1..] == raw[i + 1..];
      var s := TrimSpace(raw[i]);
      if s == "" {
        EmptyScansToNothing();
        continue;
      }
      sawNonBlank := true;
      var v := Scan(s, 0);
      if v.None? {
        continue;
      }
      assert FirstToParse(raw, i, v.value);
      return Found(v.value);
    }
    if !sawNonBlank {
      return Missing;
    }
    return Drift;
  }
}
