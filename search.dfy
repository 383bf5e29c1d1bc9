/** The `search_memory` tool: case-sensitive substring search over text values
    held in the session state, returning located snippets with context. */
module MemorySearch {
  import opened Wrappers
  import opened PyText
  import opened Session

  /** One match: the context window around it, and the offsets `[start, end)`
      of the match itself (not of the window). */
  datatype Snippet = Snippet(text: string, start: int, end: int)

  /** The snippets found in one state entry. */
  datatype KeyMatches = KeyMatches(memoryKey: string, snippets: seq<Snippet>)

  /** The dictionary the tool returns: an error message, or the stripped query
      echoed back with the matches of every key that had any. */
  datatype SearchResult =
    | SearchError(errorMessage: string)
    | SearchSuccess(query: string, matches: seq<KeyMatches>)

  const NoContextMessage: string := "Session context missing"
  const EmptyQueryMessage: string := "Query string is empty"
  const DefaultMaxSnippets: int := 5
  const DefaultSnippetRadius: int := 80

  /** How many snippets one key can yield: the limit is checked only after a
      snippet has been appended, so the per-key limit is never below one. */
  function Cap(maxSnippets: int): (n: nat)
    ensures n >= 1 && n >= maxSnippets
    ensures maxSnippets >= 1 ==> n == maxSnippets
    ensures maxSnippets < 1 ==> n == 1
  {
    if maxSnippets < 1 then 1 else maxSnippets
  }

  /** The greedy left-to-right non-overlapping occurrences of `q` in `text`
      at or after `from`: each search resumes where the previous match ended. */
  function Occurrences(text: string, q: string, from: nat): seq<nat>
    requires q != []
    decreases |text| - from
  {
    var idx := Find(text, q, from);
    if idx == -1 then [] else [idx] + Occurrences(text, q, idx + |q|)
  }

  /** The first `n` elements of `s`, or all of them when there are fewer. */
  function Take(s: seq<nat>, n: nat): (r: seq<nat>)
    ensures |r| <= n && |r| <= |s| && r == s[..|r|]
    ensures |r| < n ==> r == s
  {
    if |s| <= n then s else s[..n]
  }

  function Max(a: int, b: int): int { if a < b then b else a }
  function Min(a: int, b: int): int { if a < b then a else b }

  /** The snippet recorded for a match of `q` at `idx`: the window
      `text[max(0, idx - radius) : min(len(text), idx + len(q) + radius)]`
      with the offsets of the match itself. */
  function Window(text: string, q: string, idx: int, radius: int): Snippet {
    Snippet(PySlice(text, Max(0, idx - radius), Min(|text|, idx + |q| + radius)), idx, idx + |q|)
  }

  /** The snippets recorded for the matches at `idxs`, in order. */
  function Windows(text: string, q: string, idxs: seq<nat>, radius: int): seq<Snippet> {
    seq(|idxs|, k requires 0 <= k < |idxs| => Window(text, q, idxs[k], radius))
  }

  /** The snippets one key yields for `q`. */
  function TextSnippets(text: string, q: string, maxSnippets: int, radius: int): seq<Snippet>
    requires q != []
  {
    Windows(text, q, Take(Occurrences(text, q, 0), Cap(maxSnippets)), radius)
  }

  /** The snippets for `key`: none when the entry is missing, not a string,
      or the empty string. */
  function KeySnippets(m: Memory, key: string, q: string, maxSnippets: int, radius: int): seq<Snippet>
    requires q != []
  {
    match m.Get(key)
    case Some(Str(text)) => if text == [] then [] else TextSnippets(text, q, maxSnippets, radius)
    case _ => []
  }

  /** The result entries for `keys`, in order, leaving out keys without matches. */
  function MatchesFor(m: Memory, keys: seq<string>, q: string, maxSnippets: int, radius: int): seq<KeyMatches>
    requires q != []
  {
    if keys == [] then []
    else
      var key := keys[|keys| - 1];
      var sn := KeySnippets(m, key, q, maxSnippets, radius);
      MatchesFor(m, keys[..|keys| - 1], q, maxSnippets, radius) + (if sn == [] then [] else [KeyMatches(key, sn)])
  }

  /** The keys whose values are strings, in state order. */
  function StringKeys(order: seq<string>, m: Memory): seq<string> {
    if order == [] then []
    else
      var key := order[|order| - 1];
      StringKeys(order[..|order| - 1], m) + (if m.Get(key).Some? && m.Get(key).value.Str? then [key] else [])
  }

  /** The positions in `order` of the keys `StringKeys` picks, in order. */
  function StringPositions(order: seq<string>, m: Memory): seq<nat> {
    if order == [] then []
    else
      var key := order[|order| - 1];
      StringPositions(order[..|order| - 1], m) + (if m.Get(key).Some? && m.Get(key).value.Str? then [|order| - 1] else [])
  }

  /** `memory_keys or [every key holding a str]` */
  function KeysToSearch(m: Memory, memoryKeys: Option<seq<string>>): seq<string> {
    if memoryKeys.Some? && memoryKeys.value != [] then memoryKeys.value else StringKeys(m.order, m)
  }

  /** What `search_memory` returns when a session context is present. */
  function Search(m: Memory, query: Option<string>, memoryKeys: Option<seq<string>>, maxSnippets: int, radius: int): SearchResult {
    var q := Strip(query.GetOr(""));
    if q == [] then SearchError(EmptyQueryMessage)
    else SearchSuccess(q, MatchesFor(m, KeysToSearch(m, memoryKeys), q, maxSnippets, radius))
  }

  lemma OccurrencesStep(text: string, q: string, from: nat)
    requires q != []
    ensures var idx := Find(text, q, from);
      Occurrences(text, q, from) == if idx == -1 then [] else [idx] + Occurrences(text, q, idx + |q|)
  {
  }

  /** One step of the scan, with `n` occurrences found so far and the rest
      still ahead of `start`: a miss means all were found, a hit at `idx` is
      the next occurrence and the scan resumes after it. */
  lemma ScanStep(text: string, q: string, all: seq<nat>, n: nat, start: nat, idx: int)
    requires q != [] && n <= |all| && Occurrences(text, q, start) == all[n..]
    requires idx == Find(text, q, start)
    ensures idx == -1 ==> n == |all|
    ensures idx != -1 ==>
      n < |all| && all[n] == idx && start <= idx && idx + |q| <= |text| &&
      Occurrences(text, q, idx + |q|) == all[n + 1..]
  {
    OccurrencesStep(text, q, start);
    if idx != -1 {
      assert all[n..][0] == all[n];
      assert all[n..][1..] == all[n + 1..];
    }
  }

  /** The scan resumes right after the match it just recorded. */
  lemma ScanResume(text: string, q: string, all: seq<nat>, n: nat, idx: int, start: nat)
    requires q != [] && n <= |all| && start == idx + |q|
    requires Occurrences(text, q, idx + |q|) == all[n..]
    ensures Occurrences(text, q, start) == all[n..]
  {
  }

  /** Extending the found prefix by one extends the snippets by its window. */
  lemma WindowsSnoc(text: string, q: string, all: seq<nat>, n: nat, radius: int)
    requires n < |all|
    ensures Windows(text, q, all[..n], radius) + [Window(text, q, all[n], radius)]
      == Windows(text, q, all[..n + 1], radius)
  {
    assert all[..n + 1][..n] == all[..n];
  }

  lemma MatchesForSnoc(m: Memory, keys: seq<string>, i: nat, q: string, maxSnippets: int, radius: int)
    requires q != [] && i < |keys|
    ensures var sn := KeySnippets(m, keys[i], q, maxSnippets, radius);
      MatchesFor(m, keys[..i + 1], q, maxSnippets, radius)
      == MatchesFor(m, keys[..i], q, maxSnippets, radius) + (if sn == [] then [] else [KeyMatches(keys[i], sn)])
  {
    assert keys[..i + 1][..i] == keys[..i];
  }

  // ---------------------------------------------------------------------
  // The tool itself

  /** The scan of one text value: repeated `find` from the end of the previous
      match, stopping at the first miss or once the count reaches `maxSnippets`. */
  method ScanText(text: string, q: string, maxSnippets: int, radius: int) returns (snippets: seq<Snippet>)
    requires q != []
    ensures snippets == TextSnippets(text, q, maxSnippets, radius)
  {
    snippets := [];
    var start := 0;
    var foundCount := 0;
    ghost var all := Occurrences(text, q, 0);
    while true
      invariant 0 <= start <= |text|
      invariant foundCount <= |all| && foundCount < Cap(maxSnippets)
      invariant Occurrences(text, q, start) == all[foundCount..]
      invariant snippets == Windows(text, q, all[..foundCount], radius)
      decreases |text| - start
    {
      var idx := Find(text, q, start);
      ScanStep(text, q, all, foundCount, start, idx);
      if idx == -1 {
        assert all[..foundCount] == all;
        break;
      }
      var snippet := Window(text, q, idx, radius);
      WindowsSnoc(text, q, all, foundCount, radius);
      snippets := snippets + [snippet];
      foundCount := foundCount + 1;
      if foundCount >= maxSnippets {
        break;
      }
      start := idx + |q|;
      ScanResume(text, q, all, foundCount, idx, start);
    }
  }

  /** `search_memory(query, memory_keys, max_snippets, snippet_radius,
      tool_context)`; a null `ctx` is a call without a session context. */
  method SearchMemory(ctx: SessionState?, query: Option<string>, memoryKeys: Option<seq<string>>,
                      maxSnippets: int, radius: int) returns (r: SearchResult)
    ensures ctx == null ==> r == SearchError(NoContextMessage)
    ensures ctx != null ==> r == Search(ctx.View(), query, memoryKeys, maxSnippets, radius)
  {
    if ctx == null {
      return SearchError(NoContextMessage);
    }
    var q := Strip(query.GetOr(""));
    if q == [] {
      return SearchError(EmptyQueryMessage);
    }
    var state := ctx.View();
    var keys := KeysToSearch(state, memoryKeys);
    var matches := CollectMatches(state, keys, q, maxSnippets, radius);
    return SearchSuccess(q, matches);
  }

  /** The loop over the searched keys: each key holding a non-empty string is
      scanned, and its snippets are listed when there are any. */
  method CollectMatches(state: Memory, keys: seq<string>, q: string, maxSnippets: int, radius: int)
    returns (matches: seq<KeyMatches>)
    requires q != []
    ensures matches == MatchesFor(state, keys, q, maxSnippets, radius)
  {
    matches := [];
    var i := 0;
    while i < |keys|
      invariant 0 <= i <= |keys|
      invariant matches == MatchesFor(state, keys[..i], q, maxSnippets, radius)
    {
      var key := keys[i];
      MatchesForSnoc(state, keys, i, q, maxSnippets, radius);
      var text := state.Get(key).GetOr(Str(""));
      var snippets: seq<Snippet> := [];
      if text.Str? && text.text != [] {
        snippets := ScanText(text.text, q, maxSnippets, radius);
      }
      assert snippets == KeySnippets(state, key, q, maxSnippets, radius);
      if snippets != [] {
        matches := matches + [KeyMatches(key, snippets)];
      }
      i := i + 1;
    }
    assert keys[..|keys|] == keys;
  }

  // ---------------------------------------------------------------------
  // What the search promises

  /** A snippet as the tool reports it for a match of `q` in `text`: its
      offsets are those of the match, the match is really there, and its text
      is the window of `radius` characters around the match, clipped. */
  ghost predicate ValidSnippet(text: string, q: string, radius: int, sn: Snippet) {
    0 <= sn.start && sn.end == sn.start + |q| && sn.end <= |text| && text[sn.start..sn.end] == q
    && sn.text == PySlice(text, Max(0, sn.start - radius), Min(|text|, sn.end + radius))
  }

  function Starts(sns: seq<Snippet>): (r: seq<int>)
    ensures |r| == |sns|
  {
    seq(|sns|, k requires 0 <= k < |sns| => sns[k].start)
  }

  /** Every greedy occurrence is a real match at or after `from`, and each
      begins at or after the end of the one before. */
  lemma OccurrencesSound(text: string, q: string, from: nat)
    requires q != []
    ensures var occ := Occurrences(text, q, from);
      (forall k :: 0 <= k < |occ| ==> from <= occ[k] && MatchAt(text, q, occ[k])) &&
      (forall j, k :: 0 <= j < k < |occ| ==> occ[j] + |q| <= occ[k])
  {
    OccurrencesMatch(text, q, from);
    OccurrencesSpaced(text, q, from);
  }

  lemma {:induction false} OccurrencesMatch(text: string, q: string, from: nat)
    requires q != []
    ensures var occ := Occurrences(text, q, from);
      forall k :: 0 <= k < |occ| ==> from <= occ[k] && MatchAt(text, q, occ[k])
    decreases |text| - from
  {
    var idx := Find(text, q, from);
    FindSpec(text, q, from);
    OccurrencesStep(text, q, from);
    if idx != -1 {
      OccurrencesMatch(text, q, idx + |q|);
      var occ, rest := Occurrences(text, q, from), Occurrences(text, q, idx + |q|);
      forall k | 0 <= k < |occ| ensures from <= occ[k] && MatchAt(text, q, occ[k]) {
        if k > 0 {
          assert occ[k] == rest[k - 1];
        }
      }
    }
  }

  lemma {:induction false} OccurrencesSpaced(text: string, q: string, from: nat)
    requires q != []
    ensures var occ := Occurrences(text, q, from);
      forall j, k :: 0 <= j < k < |occ| ==> occ[j] + |q| <= occ[k]
    decreases |text| - from
  {
    var idx := Find(text, q, from);
    OccurrencesStep(text, q, from);
    if idx != -1 {
      OccurrencesSpaced(text, q, idx + |q|);
      OccurrencesMatch(text, q, idx + |q|);
      var occ, rest := Occurrences(text, q, from), Occurrences(text, q, idx + |q|);
      forall j, k | 0 <= j < k < |occ| ensures occ[j] + |q| <= occ[k] {
        assert occ[k] == rest[k - 1];
        if j > 0 {
          assert occ[j] == rest[j - 1];
        }
      }
    }
  }

  /** Greedy means nothing is missed: every match at or after `from` is either
      reported or overlaps a reported match that begins before it. */
  lemma {:induction false} OccurrencesGreedy(text: string, q: string, from: nat, p: int)
    requires q != [] && from <= p && MatchAt(text, q, p)
    ensures var occ := Occurrences(text, q, from);
      p in occ || exists k :: 0 <= k < |occ| && occ[k] < p < occ[k] + |q|
    decreases |text| - from
  {
    var idx := Find(text, q, from);
    FindSpec(text, q, from);
    var occ := Occurrences(text, q, from);
    assert idx != -1 && idx <= p;
    if p >= idx + |q| {
      OccurrencesGreedy(text, q, idx + |q|, p);
      var rest := Occurrences(text, q, idx + |q|);
      assert occ == [idx] + rest;
      if p !in rest {
        var k :| 0 <= k < |rest| && rest[k] < p < rest[k] + |q|;
        assert occ[k + 1] == rest[k];
      }
    } else if p > idx {
      assert occ[0] == idx;
    }
  }

  /** The snippet built for a match is a valid snippet and, for a
      non-negative radius, a slice of the text that contains the match. */
  lemma WindowSpec(text: string, q: string, idx: int, radius: int)
    requires MatchAt(text, q, idx)
    ensures var w := Window(text, q, idx, radius);
      ValidSnippet(text, q, radius, w) && w.start == idx &&
      (radius >= 0 ==>
        var lo, hi := Max(0, idx - radius), Min(|text|, idx + |q| + radius);
        lo <= idx && idx + |q| <= hi && w.text == text[lo..hi] && w.text[idx - lo..idx - lo + |q|] == q)
  {
    if radius >= 0 {
      WindowAround(text, q, idx, radius);
    }
  }

  /** With a non-negative radius the window is an ordinary slice around the
      match. */
  lemma WindowAround(text: string, q: string, idx: int, radius: int)
    requires MatchAt(text, q, idx) && radius >= 0
    ensures var lo, hi := Max(0, idx - radius), Min(|text|, idx + |q| + radius);
      0 <= lo <= idx && idx + |q| <= hi <= |text| &&
      Window(text, q, idx, radius).text == text[lo..hi] && text[lo..hi][idx - lo..idx - lo + |q|] == q
  {
    var lo, hi := Max(0, idx - radius), Min(|text|, idx + |q| + radius);
    SliceOfSlice(text, lo, hi, idx - lo, idx - lo + |q|);
  }

  /** The snippets of one text: at most `Cap(maxSnippets)` of them, each a
      valid snippet, in strictly increasing non-overlapping order, exactly the
      first greedy occurrences, and all of them when fewer than the cap; there
      are none exactly when `q` does not occur. */
  lemma TextSnippetsSpec(text: string, q: string, maxSnippets: int, radius: int)
    requires q != []
    ensures var sns := TextSnippets(text, q, maxSnippets, radius);
      var occ := Occurrences(text, q, 0);
      |sns| <= Cap(maxSnippets) &&
      (forall k :: 0 <= k < |sns| ==> ValidSnippet(text, q, radius, sns[k])) &&
      (forall j, k :: 0 <= j < k < |sns| ==> sns[j].end <= sns[k].start) &&
      Starts(sns) == occ[..|sns|] &&
      (|sns| < Cap(maxSnippets) ==> Starts(sns) == occ) &&
      (sns == [] <==> !Contains(text, q))
  {
    var occ := Occurrences(text, q, 0);
    var taken := Take(occ, Cap(maxSnippets));
    var sns := TextSnippets(text, q, maxSnippets, radius);
    OccurrencesSound(text, q, 0);
    assert occ == Occurrences(text, q, 0);
    forall k | 0 <= k < |sns| ensures ValidSnippet(text, q, radius, sns[k]) && sns[k].start == occ[k] {
      assert taken[k] == occ[k];
      WindowSpec(text, q, occ[k], radius);
    }
    assert Starts(sns) == occ[..|sns|];
    if !Contains(text, q) {
      assert occ == [];
    } else {
      assert occ != [];
    }
  }

  /** A snippet spans at most `radius` characters on each side of its match. */
  lemma SnippetLength(text: string, q: string, radius: int, sn: Snippet)
    requires radius >= 0 && ValidSnippet(text, q, radius, sn)
    ensures |sn.text| <= |q| + 2 * radius
  {
  }

  /** With the tool's defaults, one key yields at most five snippets of at
      most `len(query) + 160` characters each. */
  lemma DefaultSnippetBounds(text: string, q: string)
    requires q != []
    ensures var sns := TextSnippets(text, q, DefaultMaxSnippets, DefaultSnippetRadius);
      |sns| <= 5 && forall k :: 0 <= k < |sns| ==> |sns[k].text| <= |q| + 160
  {
    var sns := TextSnippets(text, q, DefaultMaxSnippets, DefaultSnippetRadius);
    TextSnippetsSpec(text, q, DefaultMaxSnippets, DefaultSnippetRadius);
    forall k | 0 <= k < |sns|
      ensures |sns[k].text| <= |q| + 160
    {
      SnippetLength(text, q, DefaultSnippetRadius, sns[k]);
    }
  }

  /** Whether `key` holds a string in which `q` occurs. */
  predicate HasHit(m: Memory, key: string, q: string) {
    m.Get(key).Some? && m.Get(key).value.Str? && Contains(m.Get(key).value.text, q)
  }

  /** The searched keys with a hit, in searched order: an independent
      statement of which entries the result lists. */
  function KeysWithHits(m: Memory, keys: seq<string>, q: string): seq<string> {
    if keys == [] then []
    else KeysWithHits(m, keys[..|keys| - 1], q) + (if HasHit(m, keys[|keys| - 1], q) then [keys[|keys| - 1]] else [])
  }

  function MatchKeys(ms: seq<KeyMatches>): (r: seq<string>)
    ensures |r| == |ms|
  {
    seq(|ms|, k requires 0 <= k < |ms| => ms[k].memoryKey)
  }

  lemma KeySnippetsSpec(m: Memory, key: string, q: string, maxSnippets: int, radius: int)
    requires q != []
    ensures var sns := KeySnippets(m, key, q, maxSnippets, radius);
      (sns != [] <==> HasHit(m, key, q)) &&
      (sns != [] ==> sns == TextSnippets(m.Get(key).value.text, q, maxSnippets, radius))
  {
    match m.Get(key)
    case Some(Str(text)) =>
      TextSnippetsSpec(text, q, maxSnippets, radius);
      if text == [] {
        assert Find(text, q, 0) == -1;
      }
    case _ =>
  }

  /** The result lists one entry per searched key that has a hit, in searched
      order (a key searched twice is listed twice), and each entry carries
      that key's snippets. */
  lemma {:induction false} MatchesForSpec(m: Memory, keys: seq<string>, q: string, maxSnippets: int, radius: int)
    requires q != []
    ensures var ms := MatchesFor(m, keys, q, maxSnippets, radius);
      MatchKeys(ms) == KeysWithHits(m, keys, q) &&
      forall i :: 0 <= i < |ms| ==>
        HasHit(m, ms[i].memoryKey, q) &&
        ms[i].snippets == TextSnippets(m.Get(ms[i].memoryKey).value.text, q, maxSnippets, radius)
  {
    if keys != [] {
      var init, key := keys[..|keys| - 1], keys[|keys| - 1];
      MatchesForSpec(m, init, q, maxSnippets, radius);
      KeySnippetsSpec(m, key, q, maxSnippets, radius);
      var ms := MatchesFor(m, keys, q, maxSnippets, radius);
      var prev := MatchesFor(m, init, q, maxSnippets, radius);
      assert ms[..|prev|] == prev;
      assert MatchKeys(ms) == MatchKeys(prev) + (if HasHit(m, key, q) then [key] else []);
    }
  }

  /** A key appears in the result exactly when it was searched and its string
      value contains the query. */
  lemma KeysWithHitsMembers(m: Memory, keys: seq<string>, q: string)
    ensures forall k :: k in KeysWithHits(m, keys, q) <==> k in keys && HasHit(m, k, q)
  {
    if keys != [] {
      KeysWithHitsMembers(m, keys[..|keys| - 1], q);
      assert keys == keys[..|keys| - 1] + [keys[|keys| - 1]];
    }
  }

  /** With no explicit key list, the searched keys are exactly the keys of
      the insertion order that hold strings (kept in that order by
      construction). */
  lemma {:induction false} StringKeysSpec(order: seq<string>, m: Memory)
    ensures forall k :: k in StringKeys(order, m) <==> k in order && m.Get(k).Some? && m.Get(k).value.Str?
  {
    if order != [] {
      StringKeysSpec(order[..|order| - 1], m);
      assert order == order[..|order| - 1] + [order[|order| - 1]];
    }
  }

  /** `StringKeys` picks keys of `order` at strictly increasing positions:
      it is a subsequence of `order`. */
  lemma {:induction false} StringKeysPositions(order: seq<string>, m: Memory)
    ensures var r, pos := StringKeys(order, m), StringPositions(order, m);
      |pos| == |r| &&
      (forall i :: 0 <= i < |r| ==> pos[i] < |order| && r[i] == order[pos[i]]) &&
      (forall i, j :: 0 <= i < j < |pos| ==> pos[i] < pos[j])
  {
    if order != [] {
      var init := order[..|order| - 1];
      StringKeysPositions(init, m);
      var r, pos := StringKeys(order, m), StringPositions(order, m);
      var r', pos' := StringKeys(init, m), StringPositions(init, m);
      forall i | 0 <= i < |r'|
        ensures pos[i] < |order| && r[i] == order[pos[i]]
      {
        assert r[i] == r'[i] && pos[i] == pos'[i];
        assert init[pos'[i]] == order[pos'[i]];
      }
    }
  }

  /** With no explicit key list, the keys searched are the string-valued
      keys of the state in insertion order, each exactly once. */
  lemma StringKeysInOrder(m: Memory)
    requires m.Valid()
    ensures var r, pos := StringKeys(m.order, m), StringPositions(m.order, m);
      |pos| == |r| &&
      (forall i :: 0 <= i < |r| ==> pos[i] < |m.order| && r[i] == m.order[pos[i]]) &&
      (forall i, j :: 0 <= i < j < |pos| ==> pos[i] < pos[j]) &&
      (forall i, j :: 0 <= i < j < |r| ==> r[i] != r[j])
  {
    StringKeysPositions(m.order, m);
    var r, pos := StringKeys(m.order, m), StringPositions(m.order, m);
    forall i, j | 0 <= i < j < |r|
      ensures r[i] != r[j]
    {
      assert m.order[pos[i]] != m.order[pos[j]];
    }
  }

  /** `memory_keys or ...`: an absent or empty key list selects exactly the
      string-valued keys of the state, each once (their insertion order is
      `StringKeysInOrder`); any other list is searched as given, duplicates
      included. */
  lemma KeysToSearchSpec(m: Memory, memoryKeys: Option<seq<string>>)
    requires m.Valid()
    ensures var keys := KeysToSearch(m, memoryKeys);
      (memoryKeys.None? || memoryKeys.value == [] ==>
        (forall k :: k in keys <==> k in m.order && m.Get(k).Some? && m.Get(k).value.Str?) &&
        (forall i, j :: 0 <= i < j < |keys| ==> keys[i] != keys[j])) &&
      (memoryKeys.Some? && memoryKeys.value != [] ==> keys == memoryKeys.value)
  {
    StringKeysSpec(m.order, m);
    StringKeysInOrder(m);
  }

  /** The errors and the echoed query: a query that is missing, empty or all
      whitespace is refused, and any other query succeeds; the search runs on
      the stripped query, which the result echoes, each entry carries its
      key's `TextSnippets`, and every listed snippet is valid for the text it
      was found in. */
  lemma SearchSpec(m: Memory, query: Option<string>, memoryKeys: Option<seq<string>>, maxSnippets: int, radius: int)
    ensures var r := Search(m, query, memoryKeys, maxSnippets, radius);
      (r == SearchError(EmptyQueryMessage) <==> AllSpace(query.GetOr(""))) &&
      (!AllSpace(query.GetOr("")) ==> r.SearchSuccess?) &&
      (r.SearchSuccess? ==>
        r.query == Strip(query.GetOr("")) && r.query != [] && NoEdgeSpace(r.query) &&
        MatchKeys(r.matches) == KeysWithHits(m, KeysToSearch(m, memoryKeys), r.query) &&
        (forall i :: 0 <= i < |r.matches| ==>
          HasHit(m, r.matches[i].memoryKey, r.query) &&
          r.matches[i].snippets == TextSnippets(m.Get(r.matches[i].memoryKey).value.text, r.query, maxSnippets, radius)) &&
        forall i, j :: 0 <= i < |r.matches| && 0 <= j < |r.matches[i].snippets| ==>
          HasHit(m, r.matches[i].memoryKey, r.query) &&
          ValidSnippet(m.Get(r.matches[i].memoryKey).value.text, r.query, radius, r.matches[i].snippets[j]))
  {
    var raw := query.GetOr("");
    StripEmptyIffAllSpace(raw);
    StripSpec(raw);
    var q := Strip(raw);
    if q != [] {
      var ms := MatchesFor(m, KeysToSearch(m, memoryKeys), q, maxSnippets, radius);
      MatchesForSpec(m, KeysToSearch(m, memoryKeys), q, maxSnippets, radius);
      forall i, j | 0 <= i < |ms| && 0 <= j < |ms[i].snippets|
        ensures HasHit(m, ms[i].memoryKey, q)
        ensures ValidSnippet(m.Get(ms[i].memoryKey).value.text, q, radius, ms[i].snippets[j])
      {
        TextSnippetsSpec(m.Get(ms[i].memoryKey).value.text, q, maxSnippets, radius);
      }
    }
  }
}
