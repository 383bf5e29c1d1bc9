/** The `read_pdf` tool after the PDF library has produced the text of each
    page: whitespace normalisation, page joining, truncation, and the write of
    the result into the session state under the requested key and, when the
    key's name says so, under the canonical résumé / job-description keys. */
module PdfReader {
  import opened Wrappers
  import opened PyText
  import opened Session

  /** The canonical key under which the résumé text is shared. */
  const CvMemoryKey: string := "pdf_resume_text"
  /** The canonical key under which the job-description text is shared. */
  const JdMemoryKey: string := "job_description_text"

  /** Words whose presence in the lower-cased key name marks a résumé. */
  const CvKeyWords: seq<string> := ["cv", "resume", "candidate"]
  /** Words whose presence in the lower-cased key name marks a job description. */
  const JdKeyWords: seq<string> := ["job", "jd", "description"]

  const TruncationMarker: string := "\n...[TRUNCATED]"
  const DefaultMaxChars: int := 120000
  const NoContextMessage: string := "Session context missing, content not saved to memory."

  /** What the PDF library yields for the file: the file does not exist, an
      exception was raised while reading (its type name), or the text of each
      page (`None` for a page without extractable text). */
  datatype Extraction =
    | FileMissing
    | ReadFailure(errorName: string)
    | Pages(pages: seq<Option<string>>)

  /** The dictionary the tool returns: success with the stored length, an
      error under "error_message", or an error under "message". */
  datatype PdfReply =
    | Saved(message: string, extractedLength: nat)
    | Failed(errorMessage: string)
    | NotSaved(message: string)

  function FileMissingMessage(filePath: string): string {
    "File not found at path: " + filePath
  }

  function ReadFailureMessage(errorName: string): string {
    "Failed to read PDF. Internal error: " + errorName
  }

  function SavedMessage(memoryKey: string): string {
    "PDF text extracted successfully and saved to session memory under key: '" + memoryKey + "'."
  }

  /** One chunk per page: `" ".join((text or "").split())`. */
  function PageChunks(pages: seq<Option<string>>): seq<string> {
    seq(|pages|, k requires 0 <= k < |pages| => CollapseSpaces(pages[k].GetOr("")))
  }

  lemma PageChunksSnoc(pages: seq<Option<string>>, i: nat)
    requires i < |pages|
    ensures PageChunks(pages[..i + 1]) == PageChunks(pages[..i]) + [CollapseSpaces(pages[i].GetOr(""))]
  {
    assert pages[..i + 1][..i] == pages[..i];
  }

  /** The raw page texts, `None` read as the empty string. */
  function RawTexts(pages: seq<Option<string>>): seq<string> {
    seq(|pages|, k requires 0 <= k < |pages| => pages[k].GetOr(""))
  }

  /** `"\n".join(chunks).strip()` */
  function FullContent(pages: seq<Option<string>>): string {
    Strip(Join("\n", PageChunks(pages)))
  }

  /** `full[:max_chars] + "\n...[TRUNCATED]"` when the text is longer than
      `max_chars`, else the text itself. A negative `max_chars` counts from the
      end, as Python slicing does. */
  function Truncate(full: string, maxChars: int): (r: string)
    ensures |full| <= maxChars ==> r == full
    ensures 0 <= maxChars < |full| ==> r == full[..maxChars] + TruncationMarker && |r| == maxChars + |TruncationMarker|
    ensures maxChars < 0 ==> r == full[..ClampIndex(maxChars, |full|)] + TruncationMarker
  {
    if |full| > maxChars then PySlice(full, 0, maxChars) + TruncationMarker else full
  }

  /** The text the tool stores and whose length it reports. */
  function StoredContent(pages: seq<Option<string>>, maxChars: int): string {
    Truncate(FullContent(pages), maxChars)
  }

  /** `any(k in mk for k in ("cv", "resume", "candidate"))` with `mk` the
      lower-cased key. */
  predicate IsCvKey(memoryKey: string) {
    ContainsAny(Lower(memoryKey), CvKeyWords)
  }

  /** `any(k in mk for k in ("job", "jd", "description"))` */
  predicate IsJdKey(memoryKey: string) {
    ContainsAny(Lower(memoryKey), JdKeyWords)
  }

  /** A key names a résumé exactly when one of "cv", "resume", "candidate"
      occurs somewhere in its lower-cased name. */
  lemma IsCvKeySpec(memoryKey: string)
    ensures IsCvKey(memoryKey) <==> OccursAny(Lower(memoryKey), CvKeyWords)
  {
    ContainsAnySpec(Lower(memoryKey), CvKeyWords);
  }

  /** A key names a job description exactly when one of "job", "jd",
      "description" occurs somewhere in its lower-cased name. */
  lemma IsJdKeySpec(memoryKey: string)
    ensures IsJdKey(memoryKey) <==> OccursAny(Lower(memoryKey), JdKeyWords)
  {
    ContainsAnySpec(Lower(memoryKey), JdKeyWords);
  }

  /** The state after the tool's writes: the requested key, then the résumé
      alias, then the job-description alias, each only when its test holds. */
  function SaveContent(m: Memory, memoryKey: string, content: string): Memory {
    AliasWrites(m, memoryKey, Str(content), IsCvKey(memoryKey), IsJdKey(memoryKey))
  }

  /** `state[key] = v`, then the résumé alias when `cv` holds, then the
      job-description alias when `jd` holds. */
  function AliasWrites(m: Memory, key: string, v: Value, cv: bool, jd: bool): Memory {
    var m1 := m.Put(key, v);
    var m2 := if cv then m1.Put(CvMemoryKey, v) else m1;
    if jd then m2.Put(JdMemoryKey, v) else m2
  }

  /** The keys `AliasWrites` writes. */
  function AliasKeys(key: string, cv: bool, jd: bool): set<string> {
    {key} + (if cv then {CvMemoryKey} else {}) + (if jd then {JdMemoryKey} else {})
  }

  /** `read_pdf(file_path, memory_key, max_chars, tool_context)`, with the
      file system and the PDF library replaced by `extraction` and a null
      `ctx` standing for a call without a session context. */
  method ReadPdf(filePath: string, memoryKey: string, maxChars: int, extraction: Extraction, ctx: SessionState?)
    returns (reply: PdfReply)
    requires ctx != null ==> ctx.Valid()
    modifies ctx
    ensures ctx != null ==> ctx.Valid()
    ensures extraction.FileMissing? ==> reply == Failed(FileMissingMessage(filePath))
    ensures extraction.ReadFailure? ==> reply == Failed(ReadFailureMessage(extraction.errorName))
    ensures extraction.Pages? && ctx == null ==> reply == NotSaved(NoContextMessage)
    ensures extraction.Pages? && ctx != null ==>
      var content := StoredContent(extraction.pages, maxChars);
      reply == Saved(SavedMessage(memoryKey), |content|) &&
      ctx.View() == SaveContent(old(ctx.View()), memoryKey, content)
    ensures (extraction.Pages? && ctx != null) || ctx == null || ctx.View() == old(ctx.View())
  {
    if extraction.FileMissing? {
      return Failed(FileMissingMessage(filePath));
    }
    if extraction.ReadFailure? {
      return Failed(ReadFailureMessage(extraction.errorName));
    }
    var fullContent := ExtractText(extraction.pages);
    var truncatedContent := Truncate(fullContent, maxChars);

    if ctx != null {
      StoreContent(ctx, memoryKey, truncatedContent);
      return Saved(SavedMessage(memoryKey), |truncatedContent|);
    }
    return NotSaved(NoContextMessage);
  }

  /** The page loop: each page's text with its whitespace collapsed, the
      pages joined by line breaks, and the result stripped. */
  method ExtractText(pages: seq<Option<string>>) returns (fullContent: string)
    ensures fullContent == FullContent(pages)
  {
    var chunks: seq<string> := [];
    var i := 0;
    while i < |pages|
      invariant 0 <= i <= |pages|
      invariant chunks == PageChunks(pages[..i])
    {
      PageChunksSnoc(pages, i);
      chunks := chunks + [CollapseSpaces(pages[i].GetOr(""))];
      i := i + 1;
    }
    assert pages[..|pages|] == pages;
    fullContent := Strip(Join("\n", chunks));
  }

  /** The writes into the session state: the requested key, then each alias
      whose test holds on the lower-cased key name. */
  method StoreContent(ctx: SessionState, memoryKey: string, content: string)
    requires ctx.Valid()
    modifies ctx
    ensures ctx.Valid()
    ensures ctx.View() == SaveContent(old(ctx.View()), memoryKey, content)
  {
    ctx.Set(memoryKey, Str(content));
    var mk := Lower(memoryKey);
    if ContainsAny(mk, CvKeyWords) {
      ctx.Set(CvMemoryKey, Str(content));
    }
    if ContainsAny(mk, JdKeyWords) {
      ctx.Set(JdMemoryKey, Str(content));
    }
  }

  // ---------------------------------------------------------------------
  // What the stored text is and where it goes

  /** The stored text keeps every non-whitespace character of the pages, in
      page order; whitespace in it is a page break or a single space between
      two words; and it has no whitespace at either end. */
  lemma FullContentSpec(pages: seq<Option<string>>)
    ensures var full := FullContent(pages);
      NonSpace(full) == NonSpace(Concat(RawTexts(pages))) &&
      LinesSingleSpaced(full) && NoEdgeSpace(full)
  {
    var chunks := PageChunks(pages);
    var raw := RawTexts(pages);
    var joined := Join("\n", chunks);
    forall k | 0 <= k < |chunks|
      ensures SingleSpaced(chunks[k]) && NonSpace(chunks[k]) == NonSpace(raw[k])
    {
      CollapseSpacesSpec(raw[k]);
    }
    assert NonSpaceEach(chunks) == NonSpaceEach(raw);
    JoinKeepsText("\n", chunks);
    NonSpaceConcat(raw);
    StripKeepsText(joined);
    JoinLinesSingleSpaced(chunks);
    StripKeepsLines(joined);
    StripSpec(joined);
  }

  /** No page chunk holds a line break, and each chunk has exactly its
      page's words. */
  lemma PageChunksSpec(pages: seq<Option<string>>)
    ensures var chunks, raw := PageChunks(pages), RawTexts(pages);
      |chunks| == |raw| &&
      forall k :: 0 <= k < |chunks| ==>
        Split(chunks[k]) == Split(raw[k]) && forall i :: 0 <= i < |chunks[k]| ==> chunks[k][i] != '\n'
  {
    var chunks, raw := PageChunks(pages), RawTexts(pages);
    forall k | 0 <= k < |chunks|
      ensures Split(chunks[k]) == Split(raw[k]) && forall i :: 0 <= i < |chunks[k]| ==> chunks[k][i] != '\n'
    {
      assert chunks[k] == CollapseSpaces(raw[k]);
      CollapseSpacesSpec(raw[k]);
      CollapseSpacesWords(raw[k]);
    }
  }

  /** The words of the stored text are the words of the pages, page after
      page in order: normalisation and joining neither merge, split, drop
      nor reorder words. */
  lemma FullContentWords(pages: seq<Option<string>>)
    ensures Split(FullContent(pages)) == SplitAll(RawTexts(pages))
  {
    var chunks := PageChunks(pages);
    SplitStrip(Join("\n", chunks));
    SplitJoinLines(chunks);
    PageChunksSpec(pages);
    SplitAllSame(chunks, RawTexts(pages));
  }

  /** With the default `max_chars`, the stored text is at most 120000
      characters plus the truncation marker. */
  lemma DefaultStoredBound(pages: seq<Option<string>>)
    ensures |StoredContent(pages, DefaultMaxChars)| <= DefaultMaxChars + |TruncationMarker|
  {
  }

  /** The keys `SaveContent` writes. */
  function WrittenKeys(memoryKey: string): set<string> {
    AliasKeys(memoryKey, IsCvKey(memoryKey), IsJdKey(memoryKey))
  }

  /** The chained writes keep the dictionary well formed and only append
      written keys to the order. */
  lemma AliasWritesOrder(m: Memory, key: string, v: Value, cv: bool, jd: bool)
    ensures var m' := AliasWrites(m, key, v, cv, jd);
      (m.Valid() ==> m'.Valid()) && Extends(m, m', AliasKeys(key, cv, jd))
  {
    var written := AliasKeys(key, cv, jd);
    var m1 := m.Put(key, v);
    PutExtends(m, key, v, written);
    var m2 := if cv then m1.Put(CvMemoryKey, v) else m1;
    if cv {
      PutExtends(m1, CvMemoryKey, v, written);
    } else {
      assert m1.order[..|m1.order|] == m1.order;
    }
    ExtendsTrans(m, m1, m2, written);
    var m3 := if jd then m2.Put(JdMemoryKey, v) else m2;
    if jd {
      PutExtends(m2, JdMemoryKey, v, written);
    } else {
      assert m2.order[..|m2.order|] == m2.order;
    }
    ExtendsTrans(m, m2, m3, written);
  }

  /** After the chained writes the written keys hold `v` and every other key
      keeps its value. */
  lemma AliasWritesValues(m: Memory, key: string, v: Value, cv: bool, jd: bool)
    ensures var m' := AliasWrites(m, key, v, cv, jd);
      forall k :: m'.Get(k) == if k in AliasKeys(key, cv, jd) then Some(v) else m.Get(k)
  {
    var m1 := m.Put(key, v);
    var m2 := if cv then m1.Put(CvMemoryKey, v) else m1;
    var m3 := AliasWrites(m, key, v, cv, jd);
    forall k
      ensures m3.Get(k) == if k in AliasKeys(key, cv, jd) then Some(v) else m.Get(k)
    {
      if k !in AliasKeys(key, cv, jd) {
        assert m1.Get(k) == m.Get(k);
        assert m2.Get(k) == m1.Get(k);
      } else if jd && k == JdMemoryKey {
      } else if cv && k == CvMemoryKey {
        assert m3.Get(k) == m2.Get(k);
      } else {
        assert m3.Get(k) == m2.Get(k) == m1.Get(k);
      }
    }
  }

  /** The requested key and each alias whose test holds now hold the
      content, and every other key keeps its value. */
  lemma SaveContentSpec(m: Memory, memoryKey: string, content: string)
    ensures var m' := SaveContent(m, memoryKey, content);
      forall k :: m'.Get(k) == if k in WrittenKeys(memoryKey) then Some(Str(content)) else m.Get(k)
  {
    AliasWritesValues(m, memoryKey, Str(content), IsCvKey(memoryKey), IsJdKey(memoryKey));
  }

  /** The state stays well formed, keys already present keep their place,
      and only written keys are appended. */
  lemma SaveContentKeepsOrder(m: Memory, memoryKey: string, content: string)
    ensures var m' := SaveContent(m, memoryKey, content);
      (m.Valid() ==> m'.Valid()) && Extends(m, m', WrittenKeys(memoryKey))
  {
    AliasWritesOrder(m, memoryKey, Str(content), IsCvKey(memoryKey), IsJdKey(memoryKey));
  }

  // The facts about the two canonical key names are split into small steps,
  // each about one literal, so that the solver never unfolds `Lower` and
  // `Find` on a literal string together.

  lemma CvKeyLetters()
    ensures forall i :: 0 <= i < |CvMemoryKey| ==>
      !IsUpperAscii(CvMemoryKey[i]) && CvMemoryKey[i] != 'j' && CvMemoryKey[i] != 'o'
  {
  }

  lemma CvKeyLower()
    ensures Lower(CvMemoryKey) == CvMemoryKey
  {
    CvKeyLetters();
    LowerNoUpper(CvMemoryKey);
  }

  lemma CvKeyHasResume()
    ensures Contains(CvMemoryKey, CvKeyWords[1])
  {
    assert CvKeyWords[1] == "resume";
    assert MatchAt(CvMemoryKey, "resume", 4);
    ContainsWitness(CvMemoryKey, "resume", 4);
  }

  /** A key with no upper-case letter and no `j` or `o` names no job description. */
  lemma NotJdKeyWithout(key: string)
    requires forall i :: 0 <= i < |key| ==> !IsUpperAscii(key[i]) && key[i] != 'j' && key[i] != 'o'
    ensures !IsJdKey(key)
  {
    LowerNoUpper(key);
    NotContainsMissingChar(key, "job", 0);
    NotContainsMissingChar(key, "jd", 0);
    NotContainsMissingChar(key, "description", 9);
    assert JdKeyWords == ["job", "jd", "description"];
  }

  lemma CvKeyNotJd()
    ensures !IsJdKey(CvMemoryKey)
  {
    CvKeyLetters();
    NotJdKeyWithout(CvMemoryKey);
  }

  /** A lower-case key containing one of the résumé words names a résumé. */
  lemma CvKeyByWord(key: string, k: int)
    requires Lower(key) == key && 0 <= k < |CvKeyWords| && Contains(key, CvKeyWords[k])
    ensures IsCvKey(key)
  {
  }

  lemma CvKeyIsCv()
    ensures IsCvKey(CvMemoryKey)
  {
    CvKeyLower();
    CvKeyHasResume();
    CvKeyByWord(CvMemoryKey, 1);
  }

  /** The résumé key is classified as a résumé key only. */
  lemma CvKeyClassified()
    ensures IsCvKey(CvMemoryKey) && !IsJdKey(CvMemoryKey)
  {
    CvKeyIsCv();
    CvKeyNotJd();
  }

  lemma JdKeyLetters()
    ensures forall i :: 0 <= i < |JdMemoryKey| ==>
      !IsUpperAscii(JdMemoryKey[i]) && JdMemoryKey[i] != 'v' && JdMemoryKey[i] != 'm' && JdMemoryKey[i] != 'a'
  {
  }

  lemma JdKeyLower()
    ensures Lower(JdMemoryKey) == JdMemoryKey
  {
    JdKeyLetters();
    LowerNoUpper(JdMemoryKey);
  }

  lemma JdKeyHasJob()
    ensures Contains(JdMemoryKey, JdKeyWords[0])
  {
    assert JdKeyWords[0] == "job";
    assert MatchAt(JdMemoryKey, "job", 0);
    ContainsWitness(JdMemoryKey, "job", 0);
  }

  /** A key with no upper-case letter and no `v`, `m` or `a` names no résumé. */
  lemma NotCvKeyWithout(key: string)
    requires forall i :: 0 <= i < |key| ==> !IsUpperAscii(key[i]) && key[i] != 'v' && key[i] != 'm' && key[i] != 'a'
    ensures !IsCvKey(key)
  {
    LowerNoUpper(key);
    NotContainsMissingChar(key, "cv", 1);
    NotContainsMissingChar(key, "resume", 4);
    NotContainsMissingChar(key, "candidate", 1);
    assert CvKeyWords == ["cv", "resume", "candidate"];
  }

  lemma JdKeyNotCv()
    ensures !IsCvKey(JdMemoryKey)
  {
    JdKeyLetters();
    NotCvKeyWithout(JdMemoryKey);
  }

  /** A lower-case key containing one of the job-description words names a
      job description. */
  lemma JdKeyByWord(key: string, k: int)
    requires Lower(key) == key && 0 <= k < |JdKeyWords| && Contains(key, JdKeyWords[k])
    ensures IsJdKey(key)
  {
  }

  lemma JdKeyIsJd()
    ensures IsJdKey(JdMemoryKey)
  {
    JdKeyLower();
    JdKeyHasJob();
    JdKeyByWord(JdMemoryKey, 0);
  }

  /** The job-description key is classified as a job-description key only. */
  lemma JdKeyClassified()
    ensures IsJdKey(JdMemoryKey) && !IsCvKey(JdMemoryKey)
  {
    JdKeyIsJd();
    JdKeyNotCv();
  }

  /** Saving under a canonical key writes that key alone. */
  lemma SaveUnderCanonicalKey(m: Memory, content: string)
    ensures SaveContent(m, CvMemoryKey, content) == m.Put(CvMemoryKey, Str(content))
    ensures SaveContent(m, JdMemoryKey, content) == m.Put(JdMemoryKey, Str(content))
  {
    CvKeyClassified();
    JdKeyClassified();
    PutTwice(m, CvMemoryKey, Str(content));
    PutTwice(m, JdMemoryKey, Str(content));
  }
}
