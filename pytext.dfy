/** Python `str` primitives used by the two tools: whitespace classification,
    `strip`, `split()`, `join`, `find`, `in`, `lower` and slicing with
    Python's index conventions. Strings are sequences of code points. */
module PyText {

  /** `str.isspace()` for one character: the characters that `str.split()`
      with no argument and `str.strip()` with no argument treat as whitespace. */
  predicate IsSpace(c: char) {
    ('\t' <= c <= '\r') || ('\U{1C}' <= c <= ' ') || c == '\U{85}' || c == '\U{A0}'
    || c == '\U{1680}' || ('\U{2000}' <= c <= '\U{200A}') || c == '\U{2028}' || c == '\U{2029}'
    || c == '\U{202F}' || c == '\U{205F}' || c == '\U{3000}'
  }

  /** The whitespace characters of Python's `str.isspace()`, listed one by one:
      the ASCII controls tab to carriage return and the file, group, record
      and unit separators, the space, next-line, no-break space, and the
      Unicode space separators, line and paragraph separators. */
  const Whitespace: set<char> := {
    '\t', '\n', '\U{0B}', '\U{0C}', '\r', '\U{1C}', '\U{1D}', '\U{1E}', '\U{1F}', ' ',
    '\U{85}', '\U{A0}', '\U{1680}',
    '\U{2000}', '\U{2001}', '\U{2002}', '\U{2003}', '\U{2004}', '\U{2005}',
    '\U{2006}', '\U{2007}', '\U{2008}', '\U{2009}', '\U{200A}',
    '\U{2028}', '\U{2029}', '\U{202F}', '\U{205F}', '\U{3000}'}

  /** `IsSpace` accepts exactly the listed whitespace characters. */
  lemma IsSpaceSpec(c: char)
    ensures IsSpace(c) <==> c in Whitespace
  {
  }

  ghost predicate AllSpace(s: string) {
    forall i :: 0 <= i < |s| ==> IsSpace(s[i])
  }

  ghost predicate NoSpace(s: string) {
    forall i :: 0 <= i < |s| ==> !IsSpace(s[i])
  }

  /** Neither the first nor the last character is whitespace. */
  ghost predicate NoEdgeSpace(s: string) {
    s == [] || (!IsSpace(s[0]) && !IsSpace(s[|s| - 1]))
  }

  /** What `" ".join(words)` produces when every word is non-empty and
      whitespace-free: whitespace occurs only as single ' ' characters
      strictly between two non-whitespace characters. */
  ghost predicate SingleSpaced(s: string) {
    forall i :: 0 <= i < |s| && IsSpace(s[i]) ==>
      s[i] == ' ' && 0 < i < |s| - 1 && !IsSpace(s[i - 1]) && !IsSpace(s[i + 1])
  }

  /** The non-whitespace characters of `s`, in order. */
  function NonSpace(s: string): string {
    if s == [] then [] else (if IsSpace(s[0]) then [] else [s[0]]) + NonSpace(s[1..])
  }

  function Concat(ws: seq<string>): string {
    if ws == [] then [] else ws[0] + Concat(ws[1..])
  }

  /** Number of leading whitespace characters. */
  function LeadingSpace(s: string): (n: nat)
    ensures n <= |s| && AllSpace(s[..n])
    ensures n < |s| ==> !IsSpace(s[n])
  {
    if s == [] || !IsSpace(s[0]) then 0
    else
      var m := LeadingSpace(s[1..]);
      assert s[..m + 1] == [s[0]] + s[1..][..m];
      m + 1
  }

  /** Number of trailing whitespace characters. */
  function TrailingSpace(s: string): (n: nat)
    ensures n <= |s| && forall i :: |s| - n <= i < |s| ==> IsSpace(s[i])
    ensures n < |s| ==> !IsSpace(s[|s| - n - 1])
  {
    if s == [] || !IsSpace(s[|s| - 1]) then 0
    else TrailingSpace(s[..|s| - 1]) + 1
  }

  /** `s.lstrip()` */
  function LStrip(s: string): (t: string)
    ensures |t| <= |s| && t == s[|s| - |t|..]
    ensures AllSpace(s[..|s| - |t|])
    ensures t == [] || !IsSpace(t[0])
  {
    s[LeadingSpace(s)..]
  }

  /** `s.rstrip()` */
  function RStrip(s: string): (t: string)
    ensures |t| <= |s| && t == s[..|t|]
    ensures AllSpace(s[|t|..])
    ensures t == [] || !IsSpace(t[|t| - 1])
  {
    s[..|s| - TrailingSpace(s)]
  }

  /** `s.strip()` */
  function Strip(s: string): string {
    RStrip(LStrip(s))
  }

  /** Where the stripped text begins in the original string. */
  function StripStart(s: string): nat
    requires |LStrip(s)| <= |s|
  {
    |s| - |LStrip(s)|
  }

  /** The stripped text sits in the input right after the leading whitespace. */
  lemma StripSlice(s: string)
    ensures var t, i := Strip(s), StripStart(s); i + |t| <= |s| && t == s[i..i + |t|]
  {
    var l, i := LStrip(s), StripStart(s);
    var t := RStrip(l);
    assert l[..|t|] == s[i..i + |t|];
  }

  /** Only whitespace follows the stripped text. */
  lemma StripTrailing(s: string)
    ensures var t, i := Strip(s), StripStart(s); i + |t| <= |s| && AllSpace(s[i + |t|..])
  {
    var l, i := LStrip(s), StripStart(s);
    var t := RStrip(l);
    SuffixOfSuffix(s, i, i + |t|);
    assert AllSpace(l[|t|..]);
  }

  lemma SuffixOfSuffix(s: string, i: int, j: int)
    requires 0 <= i <= j <= |s|
    ensures s[i..][j - i..] == s[j..]
  {
  }

  /** The stripped text has no whitespace at either end. */
  lemma StripEdges(s: string)
    ensures NoEdgeSpace(Strip(s))
  {
    var l := LStrip(s);
    var t := RStrip(l);
    if t != [] {
      assert t[0] == l[0];
    }
  }

  /** `strip()` removes exactly a whitespace prefix and a whitespace suffix and
      leaves a string with no whitespace at either end. */
  lemma StripSpec(s: string)
    ensures var t, i := Strip(s), StripStart(s);
      NoEdgeSpace(t) && i + |t| <= |s| && t == s[i..i + |t|] && AllSpace(s[..i]) && AllSpace(s[i + |t|..])
  {
    StripSlice(s);
    StripTrailing(s);
    StripEdges(s);
  }

  /** A stripped string is empty exactly when the input was all whitespace. */
  lemma StripEmptyIffAllSpace(s: string)
    ensures Strip(s) == [] <==> AllSpace(s)
  {
    var l := LStrip(s);
    if !AllSpace(s) {
      var k :| 0 <= k < |s| && !IsSpace(s[k]);
      assert l[k - (|s| - |l|)] == s[k];
    }
  }

  /** Number of leading non-whitespace characters. */
  function WordLength(t: string): (n: nat)
    ensures n <= |t| && NoSpace(t[..n])
    ensures n < |t| ==> IsSpace(t[n])
  {
    if t == [] || IsSpace(t[0]) then 0
    else
      var m := WordLength(t[1..]);
      assert t[..m + 1] == [t[0]] + t[1..][..m];
      m + 1
  }

  /** `s.split()` with no separator: the maximal runs of non-whitespace
      characters, in order. */
  function Split(s: string): (words: seq<string>)
    ensures forall k :: 0 <= k < |words| ==> words[k] != [] && NoSpace(words[k])
    decreases |s|
  {
    var t := LStrip(s);
    if t == [] then []
    else
      var n := WordLength(t);
      [t[..n]] + Split(t[n..])
  }

  /** `sep.join(words)` */
  function Join(sep: string, words: seq<string>): string {
    if words == [] then []
    else if |words| == 1 then words[0]
    else words[0] + sep + Join(sep, words[1..])
  }

  /** `" ".join(s.split())`: every run of whitespace becomes one space and the
      ends are trimmed. */
  function CollapseSpaces(s: string): string {
    Join(" ", Split(s))
  }

  /** `s[i:j]` with Python's conventions for negative and out-of-range bounds. */
  function PySlice(s: string, i: int, j: int): (r: string)
    ensures 0 <= i <= j <= |s| ==> r == s[i..j]
    ensures |r| <= |s|
  {
    var lo := ClampIndex(i, |s|);
    var hi := ClampIndex(j, |s|);
    if lo < hi then s[lo..hi] else []
  }

  lemma SliceOfSlice(s: string, lo: int, hi: int, a: int, b: int)
    requires 0 <= lo <= hi <= |s| && 0 <= a <= b <= hi - lo
    ensures s[lo..hi][a..b] == s[lo + a..lo + b]
  {
    assert forall i :: 0 <= i < b - a ==> s[lo..hi][a..b][i] == s[lo + a + i];
  }

  /** How Python turns a slice bound into a position in a sequence of length n. */
  function ClampIndex(i: int, n: nat): (p: nat)
    ensures p <= n
    ensures 0 <= i <= n ==> p == i
    ensures i < 0 <= i + n ==> p == i + n
    ensures i + n < 0 ==> p == 0
    ensures n < i ==> p == n
  {
    if i < 0 then (if i + n < 0 then 0 else i + n) else if i > n then n else i
  }

  /** Whether `q` occurs in `text` starting at position `p`. */
  predicate MatchAt(text: string, q: string, p: int) {
    0 <= p && p + |q| <= |text| && text[p..p + |q|] == q
  }

  /** `text.find(q, from)` */
  function Find(text: string, q: string, from: nat): (idx: int)
    ensures idx == -1 || (from <= idx && idx + |q| <= |text|)
    decreases |text| - from
  {
    if from + |q| > |text| then -1
    else if MatchAt(text, q, from) then from
    else Find(text, q, from + 1)
  }

  /** `find` returns the least position at or after `from` where `q` occurs,
      or -1 exactly when there is none. */
  lemma {:induction false} FindSpec(text: string, q: string, from: nat)
    ensures var idx := Find(text, q, from);
      (idx == -1 || (from <= idx && MatchAt(text, q, idx))) &&
      (idx == -1 ==> forall p :: from <= p ==> !MatchAt(text, q, p)) &&
      (idx != -1 ==> forall p :: from <= p < idx ==> !MatchAt(text, q, p))
    decreases |text| - from
  {
    if from + |q| <= |text| && !MatchAt(text, q, from) {
      FindSpec(text, q, from + 1);
    }
  }

  /** `q in s` */
  predicate Contains(s: string, q: string) {
    Find(s, q, 0) != -1
  }

  lemma ContainsSpec(s: string, q: string)
    ensures Contains(s, q) <==> exists p :: MatchAt(s, q, p)
  {
    FindSpec(s, q, 0);
  }

  /** A string with an occurrence of `q` contains `q`. */
  lemma ContainsWitness(s: string, q: string, p: int)
    requires MatchAt(s, q, p)
    ensures Contains(s, q)
  {
    FindSpec(s, q, 0);
  }

  /** A string lacking one of `q`'s characters cannot contain `q`. */
  lemma NotContainsMissingChar(s: string, q: string, j: int)
    requires 0 <= j < |q| && forall i :: 0 <= i < |s| ==> s[i] != q[j]
    ensures !Contains(s, q)
  {
    forall p
      ensures !MatchAt(s, q, p)
    {
      if 0 <= p && p + |q| <= |s| {
        assert s[p..p + |q|][j] != q[j];
      }
    }
    FindSpec(s, q, 0);
  }

  predicate IsUpperAscii(c: char) {
    'A' <= c <= 'Z'
  }

  function LowerChar(c: char): char {
    if IsUpperAscii(c) then (c as int + 32) as char else c
  }

  /** `s.lower()` restricted to the ASCII letters. */
  function Lower(s: string): (r: string)
    ensures |r| == |s|
    ensures forall i :: 0 <= i < |r| ==> !IsUpperAscii(r[i])
    ensures forall i :: 0 <= i < |r| && !IsUpperAscii(s[i]) ==> r[i] == s[i]
    ensures forall i :: 0 <= i < |r| && IsUpperAscii(s[i]) ==> r[i] as int == s[i] as int + 32
  {
    if s == [] then [] else [LowerChar(s[0])] + Lower(s[1..])
  }

  /** Lower-casing leaves a string without upper-case letters unchanged. */
  lemma LowerNoUpper(s: string)
    requires forall i :: 0 <= i < |s| ==> !IsUpperAscii(s[i])
    ensures Lower(s) == s
  {
  }

  /** `any(w in s for w in words)` */
  predicate ContainsAny(s: string, words: seq<string>) {
    exists k :: 0 <= k < |words| && Contains(s, words[k])
  }

  /** Some word of `words` occurs at some position of `s`. */
  ghost predicate OccursAny(s: string, words: seq<string>) {
    exists k, p :: 0 <= k < |words| && MatchAt(s, words[k], p)
  }

  /** `any(w in s for w in words)` holds exactly when some word of the list
      occurs at some position of `s`. */
  lemma ContainsAnySpec(s: string, words: seq<string>)
    ensures ContainsAny(s, words) <==> OccursAny(s, words)
  {
    forall k | 0 <= k < |words|
      ensures Contains(s, words[k]) <==> exists p :: MatchAt(s, words[k], p)
    {
      ContainsSpec(s, words[k]);
    }
  }

  // ---------------------------------------------------------------------
  // What whitespace normalisation keeps and what it produces

  lemma {:induction false} NonSpaceAppend(a: string, b: string)
    ensures NonSpace(a + b) == NonSpace(a) + NonSpace(b)
  {
    if a != [] {
      assert (a + b)[0] == a[0] && (a + b)[1..] == a[1..] + b;
      NonSpaceAppend(a[1..], b);
    } else {
      assert a + b == b;
    }
  }

  lemma {:induction false} NonSpaceOfAllSpace(s: string)
    requires AllSpace(s)
    ensures NonSpace(s) == []
  {
    if s != [] {
      NonSpaceOfAllSpace(s[1..]);
    }
  }

  lemma {:induction false} NonSpaceOfNoSpace(s: string)
    requires NoSpace(s)
    ensures NonSpace(s) == s
  {
    if s != [] {
      NonSpaceOfNoSpace(s[1..]);
    }
  }

  /** Leading whitespace carries no text. */
  lemma NonSpaceLStrip(s: string)
    ensures NonSpace(LStrip(s)) == NonSpace(s)
  {
    var t := LStrip(s);
    var i := |s| - |t|;
    assert s == s[..i] + t;
    NonSpaceAppend(s[..i], t);
    NonSpaceOfAllSpace(s[..i]);
  }

  /** The text of a string starting with a word is that word followed by the
      text of the rest. */
  lemma NonSpaceFirstWord(t: string)
    ensures NonSpace(t) == t[..WordLength(t)] + NonSpace(t[WordLength(t)..])
  {
    var n := WordLength(t);
    assert t == t[..n] + t[n..];
    NonSpaceAppend(t[..n], t[n..]);
    NonSpaceOfNoSpace(t[..n]);
  }

  /** One step of `split()`: skip leading whitespace, take one word. */
  lemma SplitStep(s: string)
    ensures LStrip(s) == [] ==> Split(s) == []
    ensures LStrip(s) != [] ==> var t := LStrip(s);
      Split(s) == [t[..WordLength(t)]] + Split(t[WordLength(t)..])
  {
  }

  lemma ConcatCons(w: string, ws: seq<string>)
    ensures Concat([w] + ws) == w + Concat(ws)
  {
    assert ([w] + ws)[1..] == ws;
  }

  /** `split()` drops whitespace and nothing else. */
  lemma {:induction false} SplitKeepsText(s: string)
    ensures Concat(Split(s)) == NonSpace(s)
    decreases |s|
  {
    var t := LStrip(s);
    NonSpaceLStrip(s);
    SplitStep(s);
    if t != [] {
      var n := WordLength(t);
      NonSpaceFirstWord(t);
      SplitKeepsText(t[n..]);
      ConcatCons(t[..n], Split(t[n..]));
    }
  }

  /** Joining whitespace-free words with a whitespace separator keeps exactly
      the words' characters. */
  lemma {:induction false} JoinKeepsText(sep: string, ws: seq<string>)
    requires AllSpace(sep)
    ensures NonSpace(Join(sep, ws)) == Concat(NonSpaceEach(ws))
  {
    if |ws| == 1 {
      assert NonSpaceEach(ws)[1..] == [];
    } else if |ws| > 1 {
      JoinKeepsText(sep, ws[1..]);
      NonSpaceAppend(ws[0] + sep, Join(sep, ws[1..]));
      NonSpaceAppend(ws[0], sep);
      NonSpaceOfAllSpace(sep);
      assert NonSpaceEach(ws)[1..] == NonSpaceEach(ws[1..]);
    }
  }

  function NonSpaceEach(ws: seq<string>): seq<string> {
    seq(|ws|, k requires 0 <= k < |ws| => NonSpace(ws[k]))
  }

  lemma NonSpaceEachOfWords(ws: seq<string>)
    requires forall k :: 0 <= k < |ws| ==> NoSpace(ws[k])
    ensures NonSpaceEach(ws) == ws
  {
    forall k | 0 <= k < |ws| ensures NonSpace(ws[k]) == ws[k] {
      NonSpaceOfNoSpace(ws[k]);
    }
  }

  /** Dropping whitespace commutes with concatenation. */
  lemma {:induction false} NonSpaceConcat(ws: seq<string>)
    ensures NonSpace(Concat(ws)) == Concat(NonSpaceEach(ws))
  {
    if ws != [] {
      NonSpaceAppend(ws[0], Concat(ws[1..]));
      NonSpaceConcat(ws[1..]);
      assert NonSpaceEach(ws)[1..] == NonSpaceEach(ws[1..]);
    }
  }

  /** The text of a string is the text before position `k` followed by the
      text after it. */
  lemma NonSpaceSplitAt(s: string, k: int)
    requires 0 <= k <= |s|
    ensures NonSpace(s) == NonSpace(s[..k]) + NonSpace(s[k..])
  {
    assert s == s[..k] + s[k..];
    NonSpaceAppend(s[..k], s[k..]);
  }

  /** `strip()` removes only whitespace. */
  lemma StripKeepsText(s: string)
    ensures NonSpace(Strip(s)) == NonSpace(s)
  {
    var l := LStrip(s);
    var t := RStrip(l);
    NonSpaceLStrip(s);
    NonSpaceSplitAt(l, |t|);
    NonSpaceOfAllSpace(l[|t|..]);
  }

  /** Whitespace is a line break, or a single space strictly between two
      non-whitespace characters. */
  ghost predicate LinesSingleSpaced(s: string) {
    forall i :: 0 <= i < |s| && IsSpace(s[i]) && s[i] != '\n' ==>
      s[i] == ' ' && 0 < i < |s| - 1 && !IsSpace(s[i - 1]) && !IsSpace(s[i + 1])
  }

  lemma LinesSingleSpacedAt(s: string, i: int)
    requires LinesSingleSpaced(s) && 0 <= i < |s| && IsSpace(s[i]) && s[i] != '\n'
    ensures s[i] == ' ' && 0 < i < |s| - 1 && !IsSpace(s[i - 1]) && !IsSpace(s[i + 1])
  {
  }

  lemma {:induction false} JoinLinesSingleSpaced(ws: seq<string>)
    requires forall k :: 0 <= k < |ws| ==> SingleSpaced(ws[k])
    ensures LinesSingleSpaced(Join("\n", ws))
  {
    if |ws| == 1 {
      assert SingleSpaced(ws[0]);
    } else if |ws| > 1 {
      JoinLinesSingleSpaced(ws[1..]);
      var w, r := ws[0], Join("\n", ws[1..]);
      var s := w + "\n" + r;
      assert Join("\n", ws) == s;
      assert s[|w|] == '\n';
      forall i | 0 <= i < |s| && IsSpace(s[i]) && s[i] != '\n'
        ensures s[i] == ' ' && 0 < i < |s| - 1 && !IsSpace(s[i - 1]) && !IsSpace(s[i + 1])
      {
        if i < |w| {
          assert s[i] == w[i];
          assert SingleSpaced(w);
          assert w[i] == ' ' && 0 < i < |w| - 1;
          assert s[i - 1] == w[i - 1] && s[i + 1] == w[i + 1];
        } else {
          var j := i - |w| - 1;
          assert s[i] == r[j];
          assert 0 < j < |r| - 1 && !IsSpace(r[j - 1]) && !IsSpace(r[j + 1]);
          assert s[i - 1] == r[j - 1] && s[i + 1] == r[j + 1];
        }
      }
    }
  }

  lemma StripKeepsLines(s: string)
    requires LinesSingleSpaced(s)
    ensures LinesSingleSpaced(Strip(s))
  {
    StripSpec(s);
    var t, a := Strip(s), StripStart(s);
    forall j | 0 <= j < |t| && IsSpace(t[j]) && t[j] != '\n'
      ensures t[j] == ' ' && 0 < j < |t| - 1 && !IsSpace(t[j - 1]) && !IsSpace(t[j + 1])
    {
      assert t[j] == s[a + j];
      LinesSingleSpacedAt(s, a + j);
      assert j != 0 && j != |t| - 1;
      assert t[j - 1] == s[a + j - 1] && t[j + 1] == s[a + j + 1];
    }
  }

  /** Joining non-empty whitespace-free words with one space gives a
      single-spaced string whose ends are not whitespace. */
  lemma {:induction false} JoinSingleSpaced(ws: seq<string>)
    requires forall k :: 0 <= k < |ws| ==> ws[k] != [] && NoSpace(ws[k])
    ensures var s := Join(" ", ws); SingleSpaced(s) && NoEdgeSpace(s) && (ws != [] ==> s != [])
  {
    if |ws| > 1 {
      JoinSingleSpaced(ws[1..]);
      var w, r := ws[0], Join(" ", ws[1..]);
      var s := w + " " + r;
      assert Join(" ", ws) == s;
      forall i | 0 <= i < |s| && IsSpace(s[i])
        ensures s[i] == ' ' && 0 < i < |s| - 1 && !IsSpace(s[i - 1]) && !IsSpace(s[i + 1])
      {
        if i > |w| {
          assert s[i] == r[i - |w| - 1];
          assert s[i - 1] == r[i - |w| - 2];
          assert s[i + 1] == r[i - |w|];
        }
      }
    }
  }

  /** `" ".join(s.split())` keeps every non-whitespace character in order,
      has whitespace only as single spaces strictly between non-whitespace
      characters, and none at either end. That each whitespace run of `s`
      becomes one space, and no space appears inside a word, is
      `CollapseSpacesWords`. */
  lemma CollapseSpacesSpec(s: string)
    ensures var c := CollapseSpaces(s);
      NonSpace(c) == NonSpace(s) && SingleSpaced(c) && NoEdgeSpace(c)
  {
    var ws := Split(s);
    JoinKeepsText(" ", ws);
    NonSpaceEachOfWords(ws);
    SplitKeepsText(s);
    JoinSingleSpaced(ws);
  }

  // ---------------------------------------------------------------------
  // `split()` yields exactly the maximal runs of non-whitespace characters

  /** `gaps[0] + words[0] + gaps[1] + ... + words[n - 1] + gaps[n]` */
  function Interleave(gaps: seq<string>, words: seq<string>): string
    requires |gaps| == |words| + 1
  {
    if words == [] then gaps[0] else gaps[0] + words[0] + Interleave(gaps[1..], words[1..])
  }

  /** The words are non-empty and whitespace-free, the gaps are whitespace,
      and every gap between two words is non-empty: laid out by `Interleave`,
      the words are the maximal non-whitespace runs of the string. */
  ghost predicate Runs(gaps: seq<string>, words: seq<string>) {
    |gaps| == |words| + 1 &&
    (forall i :: 0 <= i < |gaps| ==> AllSpace(gaps[i])) &&
    (forall i :: 0 < i < |words| ==> gaps[i] != []) &&
    (forall k :: 0 <= k < |words| ==> words[k] != [] && NoSpace(words[k]))
  }

  /** The whitespace gaps around the words `split()` returns. */
  function SplitGaps(s: string): (gaps: seq<string>)
    ensures |gaps| == |Split(s)| + 1 && gaps[0] == s[..|s| - |LStrip(s)|]
    decreases |s|
  {
    var t := LStrip(s);
    if t == [] then [s]
    else
      var n := WordLength(t);
      [s[..|s| - |t|]] + SplitGaps(t[n..])
  }

  lemma LeadingSpaceUnique(s: string, n: nat)
    requires n <= |s| && (forall i :: 0 <= i < n ==> IsSpace(s[i])) && (n < |s| ==> !IsSpace(s[n]))
    ensures LeadingSpace(s) == n
  {
    var m := LeadingSpace(s);
    forall i | 0 <= i < m
      ensures IsSpace(s[i])
    {
      assert s[..m][i] == s[i];
    }
  }

  lemma WordLengthUnique(t: string, n: nat)
    requires n <= |t| && (forall i :: 0 <= i < n ==> !IsSpace(t[i])) && (n < |t| ==> IsSpace(t[n]))
    ensures WordLength(t) == n
  {
    var m := WordLength(t);
    forall i | 0 <= i < m
      ensures !IsSpace(t[i])
    {
      assert t[..m][i] == t[i];
    }
  }

  /** A whitespace-only string has no words. */
  lemma SplitAllSpace(s: string)
    requires AllSpace(s)
    ensures Split(s) == []
  {
    LeadingSpaceUnique(s, |s|);
  }

  /** A non-empty whitespace-free string is one word. */
  lemma SplitWord(w: string)
    requires w != [] && NoSpace(w)
    ensures Split(w) == [w]
  {
    LeadingSpaceUnique(w, 0);
    WordLengthUnique(w, |w|);
    assert w[..|w|] == w;
    SplitAllSpace(w[|w|..]);
  }

  /** Leading whitespace does not change where the text starts. */
  lemma LStripAfterSpace(a: string, b: string)
    requires AllSpace(a)
    ensures LStrip(a + b) == LStrip(b)
  {
    var kb := LeadingSpace(b);
    forall i | 0 <= i < |a| + kb
      ensures IsSpace((a + b)[i])
    {
      if i >= |a| {
        assert (a + b)[i] == b[..kb][i - |a|];
      }
    }
    LeadingSpaceUnique(a + b, |a| + kb);
    assert (a + b)[|a| + kb..] == b[kb..];
  }

  /** Text in `a` starts where it starts in `a + b`. */
  lemma LStripBeforeText(a: string, b: string)
    requires LStrip(a) != []
    ensures LStrip(a + b) == LStrip(a) + b
  {
    var k := LeadingSpace(a);
    forall i | 0 <= i < k
      ensures IsSpace((a + b)[i])
    {
      assert (a + b)[i] == a[..k][i];
    }
    LeadingSpaceUnique(a + b, k);
    assert (a + b)[k..] == a[k..] + b;
  }

  /** A word ends where it ends when whitespace or nothing follows. */
  lemma WordLengthAppend(t: string, b: string)
    requires WordLength(t) < |t| || b == [] || IsSpace(b[0])
    ensures WordLength(t + b) == WordLength(t)
  {
    var n := WordLength(t);
    forall i | 0 <= i < n
      ensures !IsSpace((t + b)[i])
    {
      assert (t + b)[i] == t[..n][i];
    }
    WordLengthUnique(t + b, n);
  }

  lemma SliceAppend(t: string, b: string, n: int)
    requires 0 <= n <= |t|
    ensures (t + b)[..n] == t[..n] && (t + b)[n..] == t[n..] + b
  {
  }

  lemma AppendAssoc<T>(x: seq<T>, y: seq<T>, z: seq<T>)
    ensures x + y + z == x + (y + z)
  {
  }

  /** `split()` depends only on the text after the leading whitespace. */
  lemma SplitSameLStrip(x: string, y: string)
    requires LStrip(x) == LStrip(y)
    ensures Split(x) == Split(y)
  {
  }

  /** `split()` once the first word `w` and what follows it, `rest`, are known. */
  lemma SplitCons(s: string, t: string, w: string, rest: string)
    requires t == LStrip(s) && t != [] && w == t[..WordLength(t)] && rest == t[WordLength(t)..]
    ensures Split(s) == [w] + Split(rest)
  {
  }

  /** Whitespace before `b` adds no words. */
  lemma SplitAfterSpace(a: string, b: string)
    requires LStrip(a) == []
    ensures Split(a) == [] && Split(a + b) == Split(b)
  {
    assert a[..|a|] == a;
    LStripAfterSpace(a, b);
    SplitSameLStrip(a + b, b);
    SplitAllSpace(a);
  }

  /** When `a` has a word and its seam with `b` lies at whitespace, that word
      is the first word of both `a` and `a + b`, and the rest keeps the seam. */
  lemma SplitFirstWord(a: string, b: string)
    requires LStrip(a) != []
    requires b == [] || IsSpace(a[|a| - 1]) || IsSpace(b[0])
    ensures var t := LStrip(a); var n := WordLength(t); var r := t[n..];
      |r| < |a| && Split(a) == [t[..n]] + Split(r) && Split(a + b) == [t[..n]] + Split(r + b) &&
      (r == [] || b == [] || IsSpace(r[|r| - 1]) || IsSpace(b[0]))
  {
    var t := LStrip(a);
    var n := WordLength(t);
    var w, r := t[..n], t[n..];
    FirstWordSeam(a, b);
    SliceAppend(t, b, n);
    SplitCons(a + b, t + b, w, r + b);
    SplitCons(a, t, w, r);
  }

  /** Where the first word of `a` ends in `a` and in `a + b`. */
  lemma FirstWordSeam(a: string, b: string)
    requires LStrip(a) != []
    requires b == [] || IsSpace(a[|a| - 1]) || IsSpace(b[0])
    ensures var t := LStrip(a); var n := WordLength(t); var r := t[n..];
      0 < n && LStrip(a + b) == t + b && WordLength(t + b) == n &&
      (r == [] || b == [] || IsSpace(r[|r| - 1]) || IsSpace(b[0]))
  {
    var t := LStrip(a);
    var n := WordLength(t);
    var r := t[n..];
    LStripBeforeText(a, b);
    assert a[|a| - 1] == t[|t| - 1];
    if n == |t| {
      assert t[..n][n - 1] == t[n - 1];
    }
    WordLengthAppend(t, b);
    assert r != [] ==> r[|r| - 1] == a[|a| - 1];
  }

  /** The words of a concatenation whose seam lies at whitespace are the
      words of the two parts. */
  lemma {:induction false} SplitAppend(a: string, b: string)
    requires a == [] || b == [] || IsSpace(a[|a| - 1]) || IsSpace(b[0])
    ensures Split(a + b) == Split(a) + Split(b)
    decreases |a|
  {
    var t := LStrip(a);
    if t == [] {
      SplitAfterSpace(a, b);
    } else {
      var n := WordLength(t);
      SplitFirstWord(a, b);
      SplitAppend(t[n..], b);
      AppendAssoc([t[..n]], Split(t[n..]), Split(b));
    }
  }

  /** Every string is its `split()` words interleaved with whitespace gaps,
      each gap between two words non-empty. */
  lemma {:induction false} SplitRuns(s: string)
    ensures Runs(SplitGaps(s), Split(s)) && Interleave(SplitGaps(s), Split(s)) == s
    decreases |s|
  {
    var t := LStrip(s);
    if t == [] {
      assert s[..|s|] == s;
    } else {
      var n := WordLength(t);
      var lead, w, r := s[..|s| - |t|], t[..n], t[n..];
      SplitRuns(r);
      SplitCons(s, t, w, r);
      if r != [] {
        assert r[0] == t[n];
        LeadGapNonEmpty(r);
      }
      SplitGapsCons(s);
      RunsCons(lead, w, SplitGaps(r), Split(r));
      Pieces(s, t, n);
    }
  }

  lemma SplitGapsCons(s: string)
    requires LStrip(s) != []
    ensures var t := LStrip(s); var n := WordLength(t);
      SplitGaps(s) == [s[..|s| - |t|]] + SplitGaps(t[n..])
  {
  }

  /** The leading whitespace, the first word and the rest make up the string. */
  lemma Pieces(s: string, t: string, n: int)
    requires |t| <= |s| && t == s[|s| - |t|..] && 0 <= n <= |t|
    ensures s == s[..|s| - |t|] + t[..n] + t[n..]
  {
    assert s == s[..|s| - |t|] + t;
    assert t == t[..n] + t[n..];
  }

  /** A string starting with whitespace has a non-empty first gap. */
  lemma LeadGapNonEmpty(r: string)
    requires r != [] && IsSpace(r[0])
    ensures SplitGaps(r)[0] != []
  {
  }

  /** Prefixing a gap and a word to a layout of runs is again a layout of
      runs. */
  lemma RunsCons(lead: string, w: string, gaps: seq<string>, words: seq<string>)
    requires Runs(gaps, words) && AllSpace(lead) && w != [] && NoSpace(w)
    requires words != [] ==> gaps[0] != []
    ensures Runs([lead] + gaps, [w] + words)
    ensures Interleave([lead] + gaps, [w] + words) == lead + w + Interleave(gaps, words)
  {
    var gs, ws := [lead] + gaps, [w] + words;
    assert gs[1..] == gaps && ws[1..] == words;
    forall i | 0 < i < |gs|
      ensures AllSpace(gs[i])
    {
      assert gs[i] == gaps[i - 1];
    }
    forall i | 0 < i < |ws|
      ensures gs[i] != []
    {
      assert gs[i] == gaps[i - 1];
    }
    forall k | 0 < k < |ws|
      ensures ws[k] != [] && NoSpace(ws[k])
    {
      assert ws[k] == words[k - 1];
    }
  }

  /** The runs after the first word, and the whitespace (or nothing) that
      follows that word. */
  lemma RunsTail(gaps: seq<string>, words: seq<string>)
    requires Runs(gaps, words) && words != []
    ensures Runs(gaps[1..], words[1..])
    ensures var rest := Interleave(gaps[1..], words[1..]); rest == [] || IsSpace(rest[0])
  {
    forall i | 0 <= i < |gaps| - 1
      ensures AllSpace(gaps[1..][i])
    {
      assert gaps[1..][i] == gaps[i + 1];
    }
    forall i | 0 < i < |words| - 1
      ensures gaps[1..][i] != []
    {
      assert gaps[1..][i] == gaps[i + 1];
    }
    forall k | 0 <= k < |words| - 1
      ensures words[1..][k] != [] && NoSpace(words[1..][k])
    {
      assert words[1..][k] == words[k + 1];
    }
    var rest := Interleave(gaps[1..], words[1..]);
    if words[1..] != [] {
      assert rest[0] == gaps[1][0];
    } else {
      assert rest == gaps[1];
    }
  }

  /** A string laid out as whitespace gaps and words splits into exactly
      those words. */
  lemma {:induction false} SplitOfRuns(gaps: seq<string>, words: seq<string>)
    requires Runs(gaps, words)
    ensures Split(Interleave(gaps, words)) == words
  {
    if words == [] {
      SplitAllSpace(gaps[0]);
    } else {
      RunsTail(gaps, words);
      SplitOfRuns(gaps[1..], words[1..]);
      SplitOfRunsCons(gaps, words);
    }
  }

  /** The first gap adds no words and the first word is a word of its own. */
  lemma SplitOfRunsCons(gaps: seq<string>, words: seq<string>)
    requires Runs(gaps, words) && words != []
    requires Split(Interleave(gaps[1..], words[1..])) == words[1..]
    ensures Split(Interleave(gaps, words)) == words
  {
    var g, w := gaps[0], words[0];
    var rest := Interleave(gaps[1..], words[1..]);
    RunsTail(gaps, words);
    AppendAssoc(g, w, rest);
    SplitSkipSpace(g, w + rest);
    SplitAppend(w, rest);
    SplitWord(w);
    HeadTail(words);
  }

  lemma HeadTail<T>(s: seq<T>)
    requires s != []
    ensures s == [s[0]] + s[1..]
  {
  }

  /** Splitting undoes a single-space join of non-empty whitespace-free words. */
  lemma {:induction false} SplitJoin(ws: seq<string>)
    requires forall k :: 0 <= k < |ws| ==> ws[k] != [] && NoSpace(ws[k])
    ensures Split(Join(" ", ws)) == ws
  {
    if ws == [] {
      SplitAllSpace([]);
    } else if |ws| == 1 {
      SplitWord(ws[0]);
    } else {
      SplitJoin(ws[1..]);
      SplitAroundSpace(ws[0], " ", Join(" ", ws[1..]));
      SplitWord(ws[0]);
    }
  }

  /** Collapsing whitespace keeps exactly the words, so doing it twice is
      doing it once. */
  lemma CollapseSpacesWords(s: string)
    ensures Split(CollapseSpaces(s)) == Split(s)
    ensures CollapseSpaces(CollapseSpaces(s)) == CollapseSpaces(s)
  {
    SplitJoin(Split(s));
  }

  /** The words of each string in turn. */
  function SplitAll(ss: seq<string>): seq<string> {
    if ss == [] then [] else Split(ss[0]) + SplitAll(ss[1..])
  }

  /** Joining with line breaks keeps every string's words apart and in order. */
  lemma {:induction false} SplitJoinLines(ss: seq<string>)
    ensures Split(Join("\n", ss)) == SplitAll(ss)
  {
    if ss == [] {
      SplitAllSpace([]);
    } else if |ss| == 1 {
      assert SplitAll(ss) == Split(ss[0]) + SplitAll([]);
    } else {
      SplitJoinLines(ss[1..]);
      SplitAroundSpace(ss[0], "\n", Join("\n", ss[1..]));
    }
  }

  /** A whitespace separator keeps the words on either side apart. */
  lemma SplitAroundSpace(a: string, sep: string, b: string)
    requires sep != [] && AllSpace(sep)
    ensures Split(a + sep + b) == Split(a) + Split(b)
  {
    AppendAssoc(a, sep, b);
    assert IsSpace((sep + b)[0]) by {
      assert (sep + b)[0] == sep[0];
    }
    SplitAppend(a, sep + b);
    SplitSkipSpace(sep, b);
  }

  /** Leading whitespace adds no words. */
  lemma SplitSkipSpace(sep: string, b: string)
    requires AllSpace(sep)
    ensures Split(sep + b) == Split(b)
  {
    LStripAfterSpace(sep, b);
    SplitSameLStrip(sep + b, b);
  }

  lemma {:induction false} SplitAllSame(ss: seq<string>, ts: seq<string>)
    requires |ss| == |ts| && forall k :: 0 <= k < |ss| ==> Split(ss[k]) == Split(ts[k])
    ensures SplitAll(ss) == SplitAll(ts)
  {
    if ss != [] {
      SplitAllSame(ss[1..], ts[1..]);
    }
  }

  /** Stripping keeps the words. */
  lemma SplitStrip(s: string)
    ensures Split(Strip(s)) == Split(s)
  {
    SplitLStrip(s);
    SplitRStrip(LStrip(s));
  }

  lemma SplitLStrip(s: string)
    ensures Split(LStrip(s)) == Split(s)
  {
    var l := LStrip(s);
    var k := |s| - |l|;
    assert s == s[..k] + l;
    if k > 0 {
      assert IsSpace(s[..k][k - 1]);
    }
    SplitAppend(s[..k], l);
    SplitAllSpace(s[..k]);
  }

  lemma SplitRStrip(l: string)
    ensures Split(RStrip(l)) == Split(l)
  {
    var t := RStrip(l);
    var tail := l[|t|..];
    assert l == t + tail;
    if tail != [] {
      assert IsSpace(tail[0]);
    }
    SplitAppend(t, tail);
    SplitAllSpace(tail);
  }
}
