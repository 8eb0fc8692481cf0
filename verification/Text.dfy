/** ASCII text: the string order, trimming, splitting and cutting that the parsers share. */
module Text {
  import opened Common

  // ----- order -----

  /** Go's `<` on strings. */
  predicate Less(a: string, b: string) {
    b != "" && (a == "" || a[0] < b[0] || (a[0] == b[0] && Less(a[1..], b[1..])))
  }

  lemma {:induction false} LessIsStrict(a: string, b: string)
    ensures !(Less(a, b) && Less(b, a))
    ensures !Less(a, a)
    decreases |a|
  {
    if a == "" {
    } else {
      LessIsStrict(a[1..], if b == "" then "" else b[1..]);
    }
  }

  lemma {:induction false} LessIsTotal(a: string, b: string)
    ensures Less(a, b) || Less(b, a) || a == b
  {
    if a == "" || b == "" || a[0] != b[0] {
    } else {
      LessIsTotal(a[1..], b[1..]);
      assert a == [a[0]] + a[1..] && b == [b[0]] + b[1..];
    }
  }

  lemma {:induction false} LessIsTransitive(a: string, b: string, c: string)
    requires Less(a, b) && Less(b, c)
    ensures Less(a, c)
  {
    if a == "" || a[0] != b[0] || b[0] != c[0] {
    } else {
      LessIsTransitive(a[1..], b[1..], c[1..]);
    }
  }

  /** The order by the first difference: a proper prefix comes first, else the smaller character decides. */
  predicate DiffersAt(a: string, b: string, k: nat) {
    && k <= |a| && k < |b| && a[..k] == b[..k]
    && (k == |a| || a[k] < b[k])
  }

  lemma {:induction false} LessExactly(a: string, b: string)
    ensures Less(a, b) <==> exists k: nat :: DiffersAt(a, b, k)
  {
    if a == "" || b == "" || a[0] != b[0] {
      assert b != "" && (a == "" || a[0] < b[0]) ==> DiffersAt(a, b, 0);
      forall k: nat | DiffersAt(a, b, k) ensures k == 0 {
        if a != "" && k > 0 {
          SameHead(a, b, k);
        }
      }
    } else {
      LessExactly(a[1..], b[1..]);
      if k: nat :| DiffersAt(a[1..], b[1..], k) {
        OneFurther(a, b, k);
      }
      if k: nat :| DiffersAt(a, b, k) {
        OneFurther(a, b, k - 1);
      }
    }
  }

  lemma SameHead(a: string, b: string, k: nat)
    requires 0 < k <= |a| && k <= |b| && a[..k] == b[..k]
    ensures a[0] == b[0]
  {
    assert a[0] == a[..k][0] && b[0] == b[..k][0];
  }

  lemma OneFurther(a: string, b: string, k: nat)
    requires a != "" && b != "" && a[0] == b[0]
    ensures DiffersAt(a, b, k + 1) <==> DiffersAt(a[1..], b[1..], k)
  {
    if k < |a| && k < |b| {
      assert a[..k + 1] == [a[0]] + a[1..][..k] && b[..k + 1] == [b[0]] + b[1..][..k];
      assert a[..k + 1][1..] == a[1..][..k] && b[..k + 1][1..] == b[1..][..k];
    }
  }

  // ----- characters -----

  predicate IsSpace(c: char) {
    c == ' ' || c == '\t' || c == '\n' || c == '\r' || c == '\U{0b}' || c == '\U{0c}'
  }

  predicate IsUpper(c: char) {
    'A' <= c <= 'Z'
  }

  function UpperChar(c: char): char {
    if 'a' <= c <= 'z' then c - 'a' + 'A' else c
  }

  function ToUpper(s: string): string {
    seq(|s|, i requires 0 <= i < |s| => UpperChar(s[i]))
  }

  /** Letters a to z move 32 places down; everything else stays. */
  lemma ToUpperExactly(s: string, i: nat)
    requires i < |s|
    ensures |ToUpper(s)| == |s|
    ensures ToUpper(s)[i] as int == s[i] as int - (if 'a' <= s[i] <= 'z' then 32 else 0)
  {}

  // ----- trimming -----

  function TrimLeft(s: string): string {
    if s != "" && IsSpace(s[0]) then TrimLeft(s[1..]) else s
  }

  function TrimRight(s: string): string {
    if s != "" && IsSpace(s[|s| - 1]) then TrimRight(s[..|s| - 1]) else s
  }

  function TrimSpace(s: string): string {
    TrimRight(TrimLeft(s))
  }

  /** No space at either end. */
  predicate Trimmed(s: string) {
    s != "" ==> !IsSpace(s[0]) && !IsSpace(s[|s| - 1])
  }

  lemma {:induction false} TrimLeftStarts(s: string)
    ensures TrimLeft(s) != "" ==> !IsSpace(TrimLeft(s)[0])
    ensures forall c :: c in TrimLeft(s) ==> c in s
  {
    if s == "" || !IsSpace(s[0]) {
    } else {
      TrimLeftStarts(s[1..]);
    }
  }

  lemma {:induction false} TrimRightEnds(s: string)
    ensures TrimRight(s) != "" ==> !IsSpace(TrimRight(s)[|TrimRight(s)| - 1])
    ensures TrimRight(s) <= s
  {
    if s == "" || !IsSpace(s[|s| - 1]) {
    } else {
      TrimRightEnds(s[..|s| - 1]);
    }
  }

  lemma TrimSpaceTrims(s: string)
    ensures Trimmed(TrimSpace(s))
    ensures forall c :: c in TrimSpace(s) ==> c in s
    ensures Trimmed(s) ==> TrimSpace(s) == s
  {
    TrimLeftStarts(s);
    TrimRightEnds(TrimLeft(s));
  }

  predicate AllSpaces(s: string) {
    forall c :: c in s ==> c in [' ', '\t', '\n', '\r', '\U{0b}', '\U{0c}']
  }

  lemma {:induction false} TrimLeftCuts(s: string) returns (left: string)
    ensures s == left + TrimLeft(s) && AllSpaces(left)
  {
    if s == "" || !IsSpace(s[0]) {
      left := "";
    } else {
      left := TrimLeftCuts(s[1..]);
      left := [s[0]] + left;
      assert s == [s[0]] + s[1..];
    }
  }

  lemma {:induction false} TrimRightCuts(s: string) returns (right: string)
    ensures s == TrimRight(s) + right && AllSpaces(right)
  {
    if s == "" || !IsSpace(s[|s| - 1]) {
      right := "";
    } else {
      var n := |s| - 1;
      right := TrimRightCuts(s[..n]);
      right := right + [s[n]];
      assert s == s[..n] + [s[n]];
    }
  }

  /** Trimming cuts spaces off both ends, and all of them. */
  lemma TrimSpaceExactly(s: string) returns (left: string, right: string)
    ensures s == left + TrimSpace(s) + right && AllSpaces(left) && AllSpaces(right)
    ensures TrimSpace(s) != "" ==> !AllSpaces([TrimSpace(s)[0]]) && !AllSpaces([TrimSpace(s)[|TrimSpace(s)| - 1]])
  {
    left := TrimLeftCuts(s);
    right := TrimRightCuts(TrimLeft(s));
    TrimSpaceTrims(s);
    forall c | !IsSpace(c) ensures !AllSpaces([c]) {
      assert c in [c];
    }
  }

  // ----- splitting -----

  /** strings.Split on a one-character separator. */
  function Split(s: string, sep: char): seq<string>
    ensures |Split(s, sep)| > 0
  {
    if s == "" then [""]
    else
      var rest := Split(s[1..], sep);
      if s[0] == sep then [""] + rest else [[s[0]] + rest[0]] + rest[1..]
  }

  lemma {:induction false} SplitAtSeparator(a: string, b: string, sep: char)
    requires sep !in a
    ensures Split(a + [sep] + b, sep) == [a] + Split(b, sep)
  {
    var s := a + [sep] + b;
    if a == "" {
      assert s[1..] == b;
    } else {
      assert s[1..] == a[1..] + [sep] + b;
      SplitAtSeparator(a[1..], b, sep);
      assert [a[0]] + a[1..] == a && s[0] == a[0];
    }
  }

  lemma {:induction false} SplitWithout(a: string, sep: char)
    requires sep !in a
    ensures Split(a, sep) == [a]
  {
    if a == "" {
    } else {
      SplitWithout(a[1..], sep);
      assert [a[0]] + a[1..] == a;
    }
  }

  // ----- words -----

  /** Length of the leading run of non-space characters. */
  function WordLength(s: string): (n: nat)
    ensures n <= |s|
    ensures forall i :: 0 <= i < n ==> !IsSpace(s[i])
    ensures n < |s| ==> IsSpace(s[n])
  {
    if s == "" || IsSpace(s[0]) then 0 else 1 + WordLength(s[1..])
  }

  /** strings.Fields. */
  function Fields(s: string): seq<string>
    decreases |s|
  {
    var t := TrimLeft(s);
    if t == "" then []
    else
      TrimLeftStarts(s);
      TrimLeftShortens(s);
      var n := WordLength(t);
      [t[..n]] + Fields(t[n..])
  }

  lemma {:induction false} TrimLeftShortens(s: string)
    ensures |TrimLeft(s)| <= |s|
  {
    if s == "" || !IsSpace(s[0]) {
    } else {
      TrimLeftShortens(s[1..]);
    }
  }

  function Join(words: seq<string>): string {
    if words == [] then ""
    else if |words| == 1 then words[0]
    else words[0] + " " + Join(words[1..])
  }

  /** Upper case with single spaces between words: normalizeKey and normalizeToken. */
  function Normalize(s: string): string {
    ToUpper(Join(Fields(s)))
  }

  predicate IsWord(w: string) {
    w != "" && forall i :: 0 <= i < |w| ==> !IsSpace(w[i])
  }

  lemma {:induction false} FieldsOfJoin(words: seq<string>)
    requires forall i :: 0 <= i < |words| ==> IsWord(words[i])
    ensures Fields(Join(words)) == words
  {
    if |words| == 1 {
      WordThen(words[0], "");
      assert words[0] + "" == words[0];
      assert Fields("") == [];
    } else if |words| > 1 {
      var rest := " " + Join(words[1..]);
      WordThen(words[0], rest);
      assert Join(words) == words[0] + rest;
      assert rest[1..] == Join(words[1..]);
      assert TrimLeft(rest) == TrimLeft(Join(words[1..]));
      FieldsOfJoin(words[1..]);
    }
  }

  lemma WordThen(w: string, rest: string)
    requires IsWord(w) && (rest != "" ==> IsSpace(rest[0]))
    ensures Fields(w + rest) == [w] + Fields(rest)
  {
    var s := w + rest;
    assert s[0] == w[0] && TrimLeft(s) == s;
    var n := WordLength(s);
    assert forall i :: 0 <= i < |w| ==> s[i] == w[i];
    assert rest != "" ==> s[|w|] == rest[0];
    assert n == |w|;
    assert s[..n] == w && s[n..] == rest;
  }

  /** A leading space is skipped; with WordThen this decides the fields of every text. */
  lemma LeadingSpaceIsSkipped(c: char, s: string)
    requires IsSpace(c)
    ensures Fields([c] + s) == Fields(s)
    ensures Fields("") == []
  {
    assert ([c] + s)[1..] == s;
    assert TrimLeft([c] + s) == TrimLeft(s);
  }

  lemma {:induction false} FieldsAreWords(s: string)
    ensures forall i :: 0 <= i < |Fields(s)| ==> IsWord(Fields(s)[i])
    decreases |s|
  {
    var t := TrimLeft(s);
    if t == "" {
    } else {
      TrimLeftStarts(s);
      TrimLeftShortens(s);
      FieldsAreWords(t[WordLength(t)..]);
    }
  }

  function UpperAll(words: seq<string>): seq<string> {
    seq(|words|, i requires 0 <= i < |words| => ToUpper(words[i]))
  }

  lemma UpperOfSum(a: string, b: string)
    ensures ToUpper(a + b) == ToUpper(a) + ToUpper(b)
  {}

  lemma {:induction false} UpperOfJoin(words: seq<string>)
    ensures ToUpper(Join(words)) == Join(UpperAll(words))
  {
    if |words| <= 1 {
    } else {
      UpperOfJoin(words[1..]);
      UpperOfSum(words[0] + " ", Join(words[1..]));
      UpperOfSum(words[0], " ");
      assert UpperAll(words)[1..] == UpperAll(words[1..]);
      assert ToUpper(" ") == " ";
    }
  }

  lemma UpperKeepsWords(words: seq<string>)
    requires forall i :: 0 <= i < |words| ==> IsWord(words[i])
    ensures forall i :: 0 <= i < |words| ==> IsWord(UpperAll(words)[i])
  {
    forall i | 0 <= i < |words| ensures IsWord(ToUpper(words[i])) {
      assert forall k :: 0 <= k < |words[i]| ==> !IsSpace(UpperChar(words[i][k]));
    }
  }

  /** The normal form holds the same words in upper case, one space between neighbours. */
  lemma NormalizeMeaning(s: string)
    ensures Fields(Normalize(s)) == UpperAll(Fields(s))
    ensures Normalize(s) == Join(UpperAll(Fields(s)))
  {
    FieldsAreWords(s);
    UpperKeepsWords(Fields(s));
    UpperOfJoin(Fields(s));
    FieldsOfJoin(UpperAll(Fields(s)));
  }

  lemma {:induction false} TrimRightKeepsHead(s: string)
    requires s != "" && !IsSpace(s[0])
    ensures TrimRight(s) != ""
  {
    if !IsSpace(s[|s| - 1]) {
    } else {
      TrimRightKeepsHead(s[..|s| - 1]);
    }
  }

  /** Only blank text normalises to nothing. */
  lemma NormalizeBlank(s: string)
    ensures Normalize(s) == "" <==> TrimSpace(s) == ""
  {
    TrimLeftStarts(s);
    TrimLeftShortens(s);
    var t := TrimLeft(s);
    TrimRightEnds(t);
    if t == "" {
      assert Fields(s) == [];
    } else {
      FieldsAreWords(s);
      assert Fields(s) != [] && Fields(s)[0] != "";
      assert Join(Fields(s)) != "";
      TrimRightKeepsHead(t);
    }
  }

  // ----- cutting at "&&" -----

  /** Position of the first "&&", or -1. */
  function FindAmp(s: string): (i: int)
    ensures i == -1 || 0 <= i <= |s| - 2
  {
    if |s| < 2 then -1
    else if s[0] == '&' && s[1] == '&' then 0
    else
      var j := FindAmp(s[1..]);
      if j < 0 then -1 else j + 1
  }

  lemma {:induction false} FindAmpMeaning(s: string)
    ensures FindAmp(s) >= 0 ==> s[FindAmp(s)] == '&' && s[FindAmp(s) + 1] == '&'
    ensures forall k :: 0 <= k < |s| - 1 && (FindAmp(s) < 0 || k < FindAmp(s)) ==> !(s[k] == '&' && s[k + 1] == '&')
  {
    if |s| < 2 || (s[0] == '&' && s[1] == '&') {
    } else {
      FindAmpMeaning(s[1..]);
      var t := s[1..];
      forall k | 0 <= k < |s| - 1 && (FindAmp(s) < 0 || k < FindAmp(s)) ensures !(s[k] == '&' && s[k + 1] == '&') {
        if k > 0 {
          assert t[k - 1] == s[k] && t[k] == s[k + 1];
        }
      }
    }
  }

  /** The first "&&" is where it is said to be. */
  lemma FindAmpAt(s: string, i: nat)
    requires i + 1 < |s| && s[i] == '&' && s[i + 1] == '&'
    requires forall k :: 0 <= k < i ==> !(s[k] == '&' && s[k + 1] == '&')
    ensures FindAmp(s) == i
  {
    FindAmpMeaning(s);
  }
}
