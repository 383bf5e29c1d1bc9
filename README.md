# RoleFit analyzer tools: memory search and PDF text storage

This project models the two deterministic tools of the RoleFit analyzer agent
(`rolefit_analyzer_agent/agent.py`), together with the session state they share.

- `search_memory` is a case-sensitive substring search over the text values
  held in the session state.
  - It refuses a call without a session context first, and a blank query next.
  - It searches the requested keys, or by default every key holding a string,
    in insertion order.
  - For each key it scans left to right with `str.find`, resuming after each
    match. It stops at the first miss, or once `max_snippets` snippets are
    collected; since that test comes after the append, the per-key limit is
    never below one (a key with no match still yields none).
  - Each snippet records the match offsets `[idx, idx + len(q))` and the
    window `text[max(0, idx - r) : min(len(text), idx + len(q) + r)]` around
    the match.
  - Keys without a match are omitted from the result.
- `read_pdf` continues once the PDF library has produced the text of each page.
  - Each page's whitespace runs collapse to single spaces
    (`" ".join(text.split())`).
  - The pages are joined with `"\n"` and the result is stripped.
  - Text longer than `max_chars` is cut and `"\n...[TRUNCATED]"` is appended.
  - The result is written into the session state under `memory_key`.
  - It is also written under the canonical résumé key `pdf_resume_text` when
    the lower-cased key name contains `cv`, `resume` or `candidate`.
  - It is also written under the canonical job-description key
    `job_description_text` when the name contains `job`, `jd` or `description`.

Layout:

- `wrappers.dfy` (`Wrappers`): `Option`, with `GetOr` for Python's `x or default` when `x` may be `None`; the only other falsy value `x` takes in these tools is handled separately (an empty `memory_keys`) or equals the default itself (`""`).
- `pytext.dfy` (`PyText`): the Python `str` operations the tools rely on,
  with Python's own conventions.
  - `isspace`, `strip`, `split()` and `join`.
  - `find` with a start position, `in`, and `lower`.
  - Slicing with negative and out-of-range bounds.
- `session.dfy` (`Session`): the session state.
  - As a value, `Memory` is an insertion-ordered dictionary from string keys
    to `Str(text)` or `Other` values.
  - As an object, `SessionState` is a class the tools update in place.
- `search.dfy` (`MemorySearch`): `search_memory`.
  - The scanning loop is the method `ScanText`, the key loop is the method
    `CollectMatches`, and `SearchMemory` adds the context and query checks.
  - They are proved equal to the specification functions `TextSnippets`,
    `MatchesFor` and `Search`, whose properties are proved as lemmas.
- `readpdf.dfy` (`PdfReader`): the post-extraction part of `read_pdf`.
  - The page loop is the method `ExtractText`, the in-place state writes are
    the method `StoreContent`, and `ReadPdf` puts them together.
  - They are proved to store `StoredContent` and to leave the state equal to
    `SaveContent` of the old one.

## Model

| member | source | states |
|---|---|---|
| `MemorySearch.SearchMemory` | rolefit_analyzer_agent/agent.py:107-161 | With no session context the result is the "Session context missing" error, whatever the query; with one, the result is the search of the current state |
| `MemorySearch.SearchSpec` | rolefit_analyzer_agent/agent.py:132-161 | The "Query string is empty" error comes exactly when the query is missing, empty or all whitespace; any other query succeeds; on success the echoed query is the stripped query, non-empty with no edge whitespace, the listed keys are exactly the searched keys with a hit, in order, each entry's snippets are exactly that key's `TextSnippets` (so the per-key cap, non-overlap and greedy completeness of `TextSnippetsSpec` apply), and every snippet is valid for its key's text |
| `MemorySearch.ScanText` | rolefit_analyzer_agent/agent.py:143-157 | The find-and-resume loop yields exactly the windows of the first `Cap(max_snippets)` greedy occurrences |
| `MemorySearch.CollectMatches` | rolefit_analyzer_agent/agent.py:139-159 | The loop over the keys to search yields exactly one entry per key with a hit, in searched order, each with that key's snippets |
| `MemorySearch.Cap` | rolefit_analyzer_agent/agent.py:154-156 | The per-key limit is at least 1 and at least `max_snippets`; it equals `max_snippets` when that is positive and is exactly 1 when `max_snippets` is zero or negative |
| `MemorySearch.TextSnippetsSpec` | rolefit_analyzer_agent/agent.py:143-157 | At most `Cap(max_snippets)` snippets; each valid; non-overlapping with strictly increasing starts; their starts are the first greedy occurrences, and all of them when fewer than the cap; none exactly when the query does not occur |
| `MemorySearch.OccurrencesSound` | rolefit_analyzer_agent/agent.py:147-157 | Every greedy occurrence is a real match at or after the resume position, and each starts at or after the end of the previous one |
| `MemorySearch.OccurrencesGreedy` | rolefit_analyzer_agent/agent.py:146-157 | No match is missed: each match is reported or overlaps a reported match that starts before it |
| `MemorySearch.WindowSpec` | rolefit_analyzer_agent/agent.py:150-153 | A snippet's offsets are the match's own, the text between them is the query, and for a non-negative radius its text is the clipped window, a slice that contains the match |
| `MemorySearch.KeySnippetsSpec` | rolefit_analyzer_agent/agent.py:140-142 | A key yields snippets exactly when it holds a string containing the query; missing, non-string and empty values yield none |
| `MemorySearch.MatchesForSpec` | rolefit_analyzer_agent/agent.py:139-159 | The result lists one entry per searched key with a hit, in searched order, each carrying that key's snippets |
| `MemorySearch.KeysWithHitsMembers` | rolefit_analyzer_agent/agent.py:158-159 | A key is listed exactly when it was searched and its string value contains the query |
| `MemorySearch.StringKeysSpec` | rolefit_analyzer_agent/agent.py:136 | The default key list holds exactly the keys of the state that hold strings |
| `MemorySearch.StringKeysInOrder` | rolefit_analyzer_agent/agent.py:136 | In a well-formed state the default key list is a subsequence of the insertion order (taken at strictly increasing positions) with no key twice |
| `MemorySearch.KeysToSearchSpec` | rolefit_analyzer_agent/agent.py:136 | `memory_keys or [...]`: a missing or empty key list selects exactly the string-valued keys, once each; any other list is searched exactly as given |
| `MemorySearch.DefaultSnippetBounds` | rolefit_analyzer_agent/agent.py:110-111 | With the defaults `max_snippets=5`, `snippet_radius=80`, one key yields at most five snippets, each at most `len(query) + 160` characters long |
| `PyText.LStrip` | rolefit_analyzer_agent/agent.py:132 | Removes exactly a whitespace prefix and leaves no whitespace at the front |
| `PyText.RStrip` | rolefit_analyzer_agent/agent.py:69 | Removes exactly a whitespace suffix and leaves no whitespace at the back |
| `PyText.StripSpec` | rolefit_analyzer_agent/agent.py:132 | `strip()` returns a contiguous piece of its input with only whitespace around it and none at its ends |
| `PyText.StripEmptyIffAllSpace` | rolefit_analyzer_agent/agent.py:133 | A stripped string is empty exactly when the input is all whitespace |
| `PyText.IsSpaceSpec` | rolefit_analyzer_agent/agent.py:67 | The whitespace test accepts exactly the 29 characters Python's `str.isspace()` accepts, listed one by one |
| `PyText.SplitRuns` | rolefit_analyzer_agent/agent.py:67 | `split()` cuts its input into whitespace gaps and words: the input is gap, word, gap, ..., word, gap, every gap all whitespace and the inner ones non-empty, every word non-empty with no whitespace |
| `PyText.SplitOfRuns` | rolefit_analyzer_agent/agent.py:67 | Conversely, any such interleaving of gaps and words splits into exactly those words, so `split()` yields precisely the maximal runs of non-whitespace characters |
| `PyText.SplitJoin` | rolefit_analyzer_agent/agent.py:67 | `" ".join(words).split()` gives back `words` for non-empty words without whitespace |
| `PyText.CollapseSpacesWords` | rolefit_analyzer_agent/agent.py:67 | `" ".join(s.split())` has the same words as `s`, and applying it twice is applying it once |
| `PyText.SplitJoinLines` | rolefit_analyzer_agent/agent.py:69 | The words of `"\n".join(pages)` are the words of each page in turn |
| `PyText.SplitStrip` | rolefit_analyzer_agent/agent.py:69 | Stripping does not change the words |
| `PyText.JoinKeepsText` | rolefit_analyzer_agent/agent.py:67-69 | `sep.join(parts)` keeps the non-whitespace characters of the parts, in order, when the separator is whitespace |
| `PyText.SplitKeepsText` | rolefit_analyzer_agent/agent.py:67 | The words of `split()`, put back together, are exactly the non-whitespace characters of the input in order |
| `PyText.CollapseSpacesSpec` | rolefit_analyzer_agent/agent.py:67 | `" ".join(s.split())` keeps every non-whitespace character in order and leaves only single spaces strictly between non-whitespace characters |
| `PyText.JoinLinesSingleSpaced` | rolefit_analyzer_agent/agent.py:69 | Joining single-spaced pages with newlines leaves no whitespace other than page breaks and single spaces between words |
| `PyText.StripKeepsText` | rolefit_analyzer_agent/agent.py:69 | Stripping removes only whitespace characters |
| `PyText.PySlice` | rolefit_analyzer_agent/agent.py:152 | A slice with in-range bounds is the ordinary subsequence, and no slice is longer than its input |
| `PyText.ClampIndex` | rolefit_analyzer_agent/agent.py:70 | A slice bound becomes a position within the string: in-range bounds stay, negative bounds count from the end and stop at 0, and bounds past the end stop at the length |
| `PyText.FindSpec` | rolefit_analyzer_agent/agent.py:147 | `find(q, start)` returns the least match position at or after `start`, or -1 exactly when there is none |
| `PyText.ContainsSpec` | rolefit_analyzer_agent/agent.py:84-87 | `q in s` holds exactly when `q` occurs somewhere in `s` |
| `PyText.ContainsAnySpec` | rolefit_analyzer_agent/agent.py:84-86 | `any(w in s for w in words)` holds exactly when some word occurs at some position of `s` |
| `PyText.Lower` | rolefit_analyzer_agent/agent.py:83 | Same length, no upper-case ASCII letter left, each upper-case letter mapped to its lower-case form, every other character unchanged |
| `Session.Memory.Put` | rolefit_analyzer_agent/agent.py:81 | After `state[key] = v` the key holds `v` and every other key keeps its value; a new key is appended to the insertion order and an existing one keeps its place; the dictionary stays well formed |
| `Session.SessionState.Set` | rolefit_analyzer_agent/agent.py:81 | The in-place write leaves the state object equal to the written dictionary value and well formed |
| `PdfReader.ReadPdf` | rolefit_analyzer_agent/agent.py:33-99 | A missing file and a library failure give their error messages and change nothing; with no context the reply is the "not saved" error; on success the stored text is the normalised, truncated content, `extracted_length` is its length, and the state is the old state with the key and its aliases written |
| `PdfReader.ExtractText` | rolefit_analyzer_agent/agent.py:62-69 | The page loop, the newline join and the strip compute the normalised text of the pages |
| `PdfReader.StoreContent` | rolefit_analyzer_agent/agent.py:79-87 | The in-place writes leave the state well formed and equal to the old state with the key and its aliases written |
| `PdfReader.PageChunksSpec` | rolefit_analyzer_agent/agent.py:64-67 | Each page chunk has exactly its page's words and contains no line break |
| `PdfReader.FullContentWords` | rolefit_analyzer_agent/agent.py:66-69 | The words of the normalised text are the words of the pages, page after page in order: none is merged, split, dropped or reordered |
| `PdfReader.DefaultStoredBound` | rolefit_analyzer_agent/agent.py:36-70 | With the default `max_chars=120000` the stored text is at most 120000 characters plus the truncation marker |
| `PdfReader.FullContentSpec` | rolefit_analyzer_agent/agent.py:66-69 | The normalised text keeps every non-whitespace character of the pages in page order, has whitespace only as page breaks or single spaces between words, and none at either end |
| `PdfReader.Truncate` | rolefit_analyzer_agent/agent.py:70 | Text within `max_chars` is kept whole; longer text becomes its first `max_chars` characters plus the marker, of length `max_chars` plus the marker's; a negative limit cuts from the end |
| `PdfReader.SaveContentSpec` | rolefit_analyzer_agent/agent.py:79-87 | The requested key and each alias whose test holds get the content, and every other key keeps its value |
| `PdfReader.SaveContentKeepsOrder` | rolefit_analyzer_agent/agent.py:79-87 | The state stays well formed, keys already present keep their places, and only written keys are appended to the order |
| `PdfReader.IsCvKeySpec` | rolefit_analyzer_agent/agent.py:83-84 | A key triggers the résumé alias exactly when `cv`, `resume` or `candidate` occurs in its lower-cased name |
| `PdfReader.IsJdKeySpec` | rolefit_analyzer_agent/agent.py:83-86 | A key triggers the job-description alias exactly when `job`, `jd` or `description` occurs in its lower-cased name |
| `PdfReader.NotJdKeyWithout` | rolefit_analyzer_agent/agent.py:86 | A key name with no upper-case letter and no `j` or `o` does not trigger the job-description alias |
| `PdfReader.NotCvKeyWithout` | rolefit_analyzer_agent/agent.py:84 | A key name with no upper-case letter and no `v`, `m` or `a` does not trigger the résumé alias |
| `PdfReader.CvKeyClassified` | rolefit_analyzer_agent/agent.py:175 | The canonical résumé key triggers the résumé alias and not the job-description alias |
| `PdfReader.JdKeyClassified` | rolefit_analyzer_agent/agent.py:176 | The canonical job-description key triggers the job-description alias and not the résumé alias |
| `PdfReader.SaveUnderCanonicalKey` | rolefit_analyzer_agent/agent.py:175-176 | Storing under a canonical key writes that key alone |

## Left out

- Opening the file, `os.path.exists` and PyPDF2 (rolefit_analyzer_agent/agent.py:54-67) are file I/O and a foreign library. `ReadPdf` receives their outcome as a parameter: the file is missing, reading raised an exception (its type name), or the text of each page, with `None` for a page without text.
- Exceptions that might arise during normalisation or truncation are not modelled. On strings these steps cannot raise.
- The `print` logging (rolefit_analyzer_agent/agent.py:89, 138) is output only.
- Loading the environment and checking the API key (rolefit_analyzer_agent/agent.py:14-30) are configuration.
- `retry_config` (rolefit_analyzer_agent/agent.py:18-23) only configures a client library; its retry behaviour lives in that library.
- The agent definitions, their instructions, `Runner`, the session service and the async `main` (rolefit_analyzer_agent/agent.py:166-372) are framework and LLM behaviour, plus concurrency.
- `tools/generate_business_case_pdf.py` is document layout done by a rendering library. It is not part of this model.
- `rolefit_analyzer_agent/__init__.py` only re-exports names. It is not part of this model.
- The framework injects `tool_context`. Here it is a nullable `SessionState`, and `if tool_context:` is read as "is not null".
- The framework's state object is modelled as a plain insertion-ordered dictionary. Change tracking (deltas) inside the framework is not modelled.
- MemorySearch.SearchMemory: a context whose `state` is `None` (the `or {}` at rolefit_analyzer_agent/agent.py:136) is not modelled. The state is always a dictionary.
- PdfReader.ReadPdf: a `memory_key` of `None` is not modelled. The key is always a string, so `(memory_key or "")` is the key itself.
- PyText.Lower: only ASCII letters are lower-cased, where Python lowers all of Unicode. The alias tests still agree with Python:
  - The only non-ASCII characters that lower into ASCII letters are U+0130, which lowers to `i` followed by U+0307, and the Kelvin sign U+212A, which lowers to `k`.
  - Neither can complete one of the six alias words. No word contains `k`, and every `i` in the six words is followed by another ASCII letter, so no word ends in `i` and none contains U+0307.
- Values are `Str(text)` or `Other`. The tools only ever ask whether a value is a `str`, so other value types are not distinguished.
