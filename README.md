# abema-comment-down, modelled in Dafny

The repository downloads every comment of an AbemaTV broadcast slot and
writes them as a `packet` XML file of `chat` elements that comment-overlay
players can read. Two scripts do this: `main.js` (`download`, run for every
slot id found on the clipboard) and its older copy `downloader.js` (one
hard-coded slot). Both run the same three steps, and this project models
those steps:

1. **Paginator** (`paginator.dfy`). The comment API answers "up to 1000
   comments at or before `until`", newest first. The loop asks with `until`
   equal to the timestamp of the last collected comment, or a fresh clock
   reading (`+new Date()`, taken at that call) while nothing is collected, and appends each page to `rawComments`. A page
   of exactly one comment becomes `rawOldComment` and is lowered by one
   millisecond, so that the next inclusive bound moves strictly earlier. A
   `null` answer ends the loop: with nothing collected `main.js` reports "no
   comments", otherwise the last collected comment is raised by one
   millisecond again. The API is an oracle: `responses[k]` is the answer to
   the k-th call, `None` standing for `null`. `rawOldComment` is the same
   object as the lone comment of its page, so it is modelled as a position
   in `rawComments` (`Progress.oldest`). A timestamp change therefore reaches
   it too, and in particular the final +1 does. `Paginate` is proved against
   the fold `Accumulate`, the `null` step `Finish` and the bound list `Bounds`.
   Lemmas then characterise those against the plain concatenation of the
   pages.
2. **Timeline builder** (`timeline.dfy`). Each comment becomes a `chat`
   entry with `date = floor(createdAtMs / 1000)` and
   `vpos = floor((createdAtMs - rawOldComment.createdAtMs) / 10)`. The text
   is the escaped message in `main.js` and the raw message in `downloader.js`.
   The entries are pushed into an array and reversed in place, so the oldest
   comes first. When comments were collected but no page ever held exactly
   one comment, `rawOldComment` is still `null` and the source throws; the
   model returns `None` there.
3. **Serializer** (`serializer.dfy`, `escaping.dfy`, `text.dfy`). There is
   `escapeXml`, six global replacements with `&` first. After the XML
   builder has rendered the entries, the text is split on LF and filtered to
   the first occurrence of each line. The lines are joined with CRLF, and
   the first ` standalone="yes"` is removed (a string-pattern `replace`
   replaces only once).

`main_script.dfy` and `downloader_script.dfy` compose the three steps as
each script does. They differ in two ways. `downloader.js` has no
empty-buffer check, so a first `null` answer makes it read
`rawComments[-1]` and throw. `downloader.js` also does not escape
messages. `outcomes.dfy` names the possible endings: no comments, the saved
text, or one of the two TypeErrors.

Four behaviours of the code worth knowing:
- The reference comment for `vpos` is not the minimum timestamp. It is the
  comment that came alone in the last single-comment page, and it may be
  absent, which is a crash.
- An empty feed is "no comments" only in `main.js`; `downloader.js` throws.
- Escaping is not idempotent: escaping escaped text escapes its `&` again.
  `Escaping.EscapeXmlTwice` proves this. What does hold is the round trip
  `Unescape(EscapeXml(s)) == s`.
- The final +1 is applied to the last collected comment whether or not it
  was lowered. `Paginator.CollectedSpec` states both cases. Only when the
  last non-empty page held a single comment is that comment back at its
  true time.

## Model

| member | source | states |
|---|---|---|
| Text.ReplaceAll | main.js:45-50 | a global one-character replacement leaves no occurrence of the pattern when the replacement does not contain it |
| Text.ReplaceAllConcat | main.js:44-50 | a global one-character replacement distributes over concatenation |
| Escaping.EscapeXmlChar | main.js:44-50 | on one character the six chained replacements give exactly that character's entity: no later replacement rewrites what an earlier one produced |
| Escaping.EscapeXmlPerChar | main.js:43-51 | `escapeXml` equals the character-by-character reference escaper |
| Escaping.EscapeXmlConcat | main.js:43-51 | escaping `a + b` gives escaped `a` followed by escaped `b` |
| Escaping.EscapeXmlSafe | main.js:43-51 | the escaped text contains no raw `<`, `>`, `"`, `'` or NUL |
| Escaping.EscapeXmlPlain | main.js:43-51 | text holding none of the six characters is returned unchanged |
| Escaping.UnescapeEscapeXml | main.js:43-51 | unescaping the escaped text gives the original message back, so no introduced entity is escaped twice |
| Escaping.EscapeXmlTwice | main.js:112 | escaping an already escaped message that held one of the six characters changes it again (escaping is not idempotent) |
| Serializer.Split | main.js:126 | `split("\n")` yields at least one piece and no piece contains LF |
| Serializer.JoinSplit | main.js:126-129 | splitting on LF and joining with CRLF replaces every LF by CRLF |
| Serializer.SplitJoinRoundTrip | downloader.js:93-96 | joining the pieces with the separator itself gives the text back |
| Serializer.IndexOf | main.js:126 | `indexOf` is -1 exactly when the line is absent, and otherwise the position of its first occurrence |
| Serializer.KeepFirstSpec | downloader.js:93 | the filter over the first n lines keeps the same lines, each once, in the order of their first occurrence |
| Serializer.UniqueLinesSpec | main.js:126 | the line filter keeps exactly the first occurrence of every line: same set of lines, no duplicates, ordered by first position |
| Serializer.KeepFirstOfDistinct | downloader.js:93 | a list without repeated lines passes the filter unchanged |
| Serializer.UniqueLinesIdempotent | main.js:126 | filtering twice equals filtering once |
| Serializer.FindFrom | main.js:130 | the search returns the first position at or after the start where the pattern occurs, or none when it occurs nowhere there |
| Serializer.RemoveFirst | main.js:130 | text without the pattern is returned unchanged |
| Serializer.RemoveFirstAt | main.js:130 | when the first occurrence is at i, exactly the characters i .. i+|pattern| are removed |
| Serializer.RemoveFirstKeepsLater | downloader.js:97 | a later, non-overlapping occurrence of ` standalone="yes"` survives the replace |
| Serializer.PostProcessWithoutRepeats | main.js:126-130 | for a document without repeated lines the post-processing is LF-to-CRLF followed by removal of the first ` standalone="yes"` |
| Escaping.EscapeXml | main.js:43-51 | definition: the six chained global replacements, `&` first; characterised by `EscapeXmlPerChar` and `UnescapeEscapeXml` |
| Serializer.Join | main.js:129 | definition of `join`; characterised by `JoinSplit` and `SplitJoinRoundTrip` |
| Serializer.KeepFirst | downloader.js:93 | definition of the `indexOf` filter over a prefix; characterised by `KeepFirstSpec` |
| Serializer.UniqueLines | main.js:126 | definition of the `indexOf` filter over all lines; characterised by `UniqueLinesSpec` and `UniqueLinesIdempotent` |
| Serializer.PostProcess | main.js:126-130 | definition: split on LF, filter, join with CRLF, remove the first ` standalone="yes"` (downloader.js:93-97 is identical); characterised by `PostProcessWithoutRepeats` |
| Paginator.QueryBound | main.js:67-68 | definition of the `until` bound; characterised by `NextBound` |
| Paginator.Absorb | main.js:85-95 | a non-null page lengthens the buffer by its own length and leaves the earlier comments as they were; the reference moves only on a single-comment page |
| Paginator.Finish | main.js:73-82 | the `null` answer gives up exactly when the buffer is empty; otherwise it raises the last comment by 1 ms and leaves every other comment and the reference unchanged |
| Paginator.Served | main.js:71-73 | the pages handled by the loop are the answers before the first `null`, which is the answer to the next call |
| Paginator.Accumulate | main.js:85-95 | the buffer grows by exactly each page's length and the oldest-comment position always points into it |
| Paginator.Paginate | main.js:65-99 | the loop asks with the bound of every step, the last (null-answered) call included, reading the clock afresh at each call while nothing is collected, and ends with the state that folding the pages and the final `null` step give |
| Paginator.NextBound | main.js:67-68 | while nothing has been collected the bound is that call's clock reading; after some comments an empty page leaves it unchanged; it is the lone comment's time minus 1 after a single-comment page, and is the page's last timestamp after a longer page |
| Paginator.AccumulateSpec | downloader.js:51-61 | the buffer is the pages concatenated, ids, authors and messages unchanged, with exactly the lone comments of single-comment pages lowered by 1 ms; the oldest-comment reference is absent iff no page held one comment, else the last such comment |
| Paginator.CollectedSpec | main.js:73-82 | after the `null` answer the last comment is raised by 1 ms (back to its true time if it came alone, and then it is the reference); every other comment and the reference stay as the pages left them |
| TimelineBuilder.Entry | main.js:102-113 | `date` and `vpos` are the floors of the quotients by 1000 and 10, `id` and `user_id` are copied, the text is the escaped or the raw message |
| TimelineBuilder.Timeline | downloader.js:68-83 | the timeline has one entry per comment, entry k being that of the k-th comment from the end |
| TimelineBuilder.BuildTimeline | main.js:101-116 | the push loop and in-place reverse yield the timeline with the reference comment's timestamp as base, or the TypeError when there is no reference and the buffer is not empty |
| TimelineBuilder.Reverse | main.js:116 | `chat.reverse()` puts the element from position n-1-k at position k |
| TimelineBuilder.TimelineOrdered | main.js:105-116 | a newest-first buffer gives non-decreasing `date` and `vpos` in output order |
| TimelineBuilder.ReferenceAtZero | main.js:109 | the reference comment's own entry has `vpos` 0 |
| TimelineBuilder.OffsetsNonNegative | downloader.js:76 | when the reference is the earliest comment, no `vpos` is negative |
| MainScript.Download | main.js:53-139 | no comments exactly when nothing was collected, the TypeError exactly when no single-comment page was seen, otherwise the post-processed rendering of the escaped timeline |
| MainScript.TwoPageScenario | main.js:65-116 | pages [5000, 3000], [1000], then `null`: bounds (first clock reading), 3000, 999; output oldest first with `date` 1, 3, 5 and `vpos` 0, 200, 400 |
| DownloaderScript.Run | downloader.js:21-106 | a first `null` answer throws instead of reporting no comments; otherwise as in main.js but with unescaped messages |

## Left out

- HTTP: `getComments` and `getSchedule` and the bearer token (main.js:15-41, downloader.js:9-19) are network I/O. The `responses` oracle replaces them, one answer per call. In main.js a 502 is retried without bound (main.js:34-38); a retried call is one call here. downloader.js retries nothing: its `getComments` rethrows every error (downloader.js:16-18), so a 502 aborts that script, which the model does not represent.
- Throttling with `sleep` (main.js:11-13, 98, 159; downloader.js:5-7, 65): a timing side effect with no effect on the result.
- The xml2js `Builder` (main.js:118-123, downloader.js:85-90) is a foreign library. It is the parameter `render` from the entries to the document text.
- Clipboard reading, the JSON parse of slot ids and the per-slot loop (main.js:141-161): input handling and a plain sequential driver.
- `fs.writeFile` and console logging (main.js:132-138, downloader.js:62, 99-105): the `Saved` outcome carries the text that would be written; file names, write errors and log lines are not modelled.
- The wall clock: `+new Date()` (main.js:67, downloader.js:38) is read anew at every call while the buffer is empty; the model takes these readings as the parameter `clock`, one per call, `clock[k]` at call k.
- Paginator.Paginate: requires that some answer is `null`. The source loops forever on a feed that never ends, and an oracle of finite length cannot express that.
- JavaScript numbers are doubles: timestamps are unbounded integers. This is exact for epoch milliseconds, which stay far below 2^53.
- Strings are sequences of characters. The UTF-16 representation does not matter to the six one-character replacements, to `split` or to `replace`.
- Serializer.RemoveFirst: models `replace` with an empty replacement string only, which is the only way the source uses it (no `$` patterns arise).
- The API's own semantics (which comments a bound returns) are not modelled, so termination on a real feed and the overlap between consecutive pages are not proved; the line filter is modelled as written.
