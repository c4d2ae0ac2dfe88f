# HaikuMe: permalink catalogue and haiku extraction

HaikuMe is a Google Glass app that shows a random haiku from the r/haiku
subreddit. Two pieces of logic sit under its Android glue; this project models
both and proves what they promise.

* **The permalink catalogue** (`HaikuDbAdapter`) is one SQLite table,
  `haiku_permalinks`. Its primary key is the permalink text and its `is_visited`
  column holds 0 or 1. The model is the class `HaikuDb.HaikuDbAdapter`, whose
  field `rows: map<string, bool>` holds the table. Its methods insert one or
  many permalinks, clear every flag, mark one permalink visited, and pick a
  random unvisited permalink. When the pick finds none, it clears every flag
  and tries exactly once more. `ORDER BY RANDOM() LIMIT 1` is a
  nondeterministic choice among the unvisited keys.
* **The download of one haiku** (`DownloadHaikuPermalink.doInBackground`) works
  in four steps:
  * build `http://reddit.com/r/haiku/<permalink>.json` and GET it;
  * mark the permalink visited as soon as the status is 200, before the body is
    read or parsed;
  * take the `"title"` field, split it on `/` as Java's `String.split` does
    (trailing empty pieces dropped), and demand exactly three pieces, each at
    most 45 chars once trimmed; the haiku is the three trimmed pieces joined
    by newlines;
  * take the `"author"` field on a best-effort basis, falling back to `n/a`.

  `HaikuDownload.Parse` specifies this as a function from the body (`None`
  when there is none) to the result. `HaikuDownload.ExtractHaiku` follows the
  source step by step and is proved equal to `Parse`. Its `StringBuilder` loop
  is the method `HaikuDownload.BuildHaiku`, proved to yield the trimmed lines
  joined by newlines.

The two regular expressions are modelled exactly, as Java SE specifies
`java.util.regex`, rather than by a regex engine. `FieldCapture.IsMatch` says when `Matcher.matches()` succeeds with a
given split of the body:

* the leading `.*` and trailing `.*` cover only chars that are not line
  terminators;
* the title opener is `"title":`, any run of Java whitespace, then `"`;
* the author opener is exactly `"author": "`, with one space;
* the group holds no `"`; the title group is non-empty, the author group may
  be empty.

Because the leading `.*` is greedy, the match reported is the one that starts
last. `FieldCapture.Capture` returns that match's group, and its contract says
so.

Two consequences of the patterns as written:

* The author pattern needs exactly one space after `"author":`. A body such as
  `{"title": "old pond/a frog jumps in/the sound of water", "author":"basho"}`
  therefore yields the author `n/a`, not `basho`.
* A trimmed segment may be empty. The title `a/ /c` is accepted with an empty
  middle line, because only the segment count and the lengths are checked.

Modules: `Wrappers` (`Option`), `JavaString` (`String.trim`, `String.split`,
joining), `FieldCapture` (the two patterns), `HaikuDb` (the catalogue),
`HaikuDownload` (URL, parsing and the download step) and `ParseProperties`
(lemmas about whole bodies, including the round trip).

## Model

| member | source | states |
|---|---|---|
| HaikuDb.Insert | src/com/pwnetics/glass/haiku/HaikuDbAdapter.java:53-55 | One insert adds the key with its flag false. A key already present is left as it was, because the primary key refuses a second row and the insert's result is ignored. Every other row is kept. |
| HaikuDb.InsertAll | src/com/pwnetics/glass/haiku/HaikuDbAdapter.java:90-103 | The table after inserting a batch one element after another, as the `for` loop calls `addPermalink`. It keeps every old key and contains every key of the batch. Its exact rows are given by `InsertAllSpec`. |
| HaikuDb.Cleared | src/com/pwnetics/glass/haiku/HaikuDbAdapter.java:158-166 | Clearing keeps exactly the same keys and sets every flag to false. |
| HaikuDb.MarkVisited | src/com/pwnetics/glass/haiku/HaikuDbAdapter.java:192-200 | Marking keeps the key set. It sets the flag of `k` when `k` is present and leaves every other row unchanged; an unknown `k` changes nothing. |
| HaikuDb.InsertAllSpec | src/com/pwnetics/glass/haiku/HaikuDbAdapter.java:90-103 | Inserting a batch in turn adds exactly the batch's keys, each new key unvisited, even with duplicates in the batch. Rows already present keep their flags. |
| HaikuDb.InsertAllIdempotent | src/com/pwnetics/glass/haiku/HaikuDbAdapter.java:81-103 | Inserting the same batch twice has the effect of inserting it once. |
| HaikuDb.ClearedRefills | src/com/pwnetics/glass/haiku/HaikuDbAdapter.java:178-186 | After a non-empty table is cleared, some row is unvisited, so the second query of the pick finds one. |
| HaikuDb.MarkedIsNotPicked | src/com/pwnetics/glass/haiku/HaikuDbAdapter.java:176 | A permalink just marked visited is not among the next pick's candidates. The table becomes exhausted exactly when no other row was unvisited. This holds whether the permalink was unvisited, already visited or unknown. |
| HaikuDb.HaikuDbAdapter.constructor | src/com/pwnetics/glass/haiku/HaikuDbAdapter.java:53-55 | A newly created table has no rows. |
| HaikuDb.HaikuDbAdapter.AddPermalink | src/com/pwnetics/glass/haiku/HaikuDbAdapter.java:81-87 | A new permalink is added with its flag false. An existing one leaves the table unchanged. |
| HaikuDb.HaikuDbAdapter.AddPermalinks | src/com/pwnetics/glass/haiku/HaikuDbAdapter.java:90-103 | The new table is the old one with each element inserted in turn, as `InsertAll`. Its effect is pinned down by `InsertAllSpec`. |
| HaikuDb.HaikuDbAdapter.ClearAllVisitedFlags | src/com/pwnetics/glass/haiku/HaikuDbAdapter.java:158-166 | The new table is the old one with every flag cleared. |
| HaikuDb.HaikuDbAdapter.QueryUnvisited | src/com/pwnetics/glass/haiku/HaikuDbAdapter.java:176-181 | The query finds nothing exactly when no row is unvisited. Otherwise it returns some unvisited key. It changes nothing. |
| HaikuDb.HaikuDbAdapter.FetchRandomPermalink | src/com/pwnetics/glass/haiku/HaikuDbAdapter.java:169-189 | The result is null exactly when the table was empty. A non-null result is a key whose flag is false. When some row was unvisited, the table is unchanged; otherwise every flag is cleared. The loop runs at most twice. |
| HaikuDb.HaikuDbAdapter.MarkPermalinkAsVisited | src/com/pwnetics/glass/haiku/HaikuDbAdapter.java:192-200 | The new table is `MarkVisited` of the old one: only that permalink's flag is set, and an unknown permalink changes nothing. |
| HaikuDownload.PermalinkUrl | src/com/pwnetics/glass/haiku/DownloadHaikuPermalink.java:53-55 | The URL starts with `http://reddit.com/r/haiku/`, ends with `.json`, and holds exactly the permalink between the two. |
| HaikuDownload.PermalinkUrlRoundTrip | src/com/pwnetics/glass/haiku/DownloadHaikuPermalink.java:53-55 | The permalink can be read back from its URL, so distinct permalinks give distinct URLs. |
| HaikuDownload.Message | src/com/pwnetics/glass/haiku/DownloadHaikuPermalink.java:73-99 | There is a body to parse exactly when the server answered 200 and the response stream could be opened. The body is then the text read, which after a failed read or close is the partial text. |
| HaikuDownload.TrimAll | src/com/pwnetics/glass/haiku/DownloadHaikuPermalink.java:113-114 | Each segment is replaced by its trimmed text, and the number of segments is kept. |
| HaikuDownload.AuthorOf | src/com/pwnetics/glass/haiku/DownloadHaikuPermalink.java:124-136 | The author is `n/a` when the author pattern does not match or the trimmed group is longer than 45. Otherwise it is the trimmed group, which may be empty. It is never longer than 45. |
| HaikuDownload.BuildHaiku | src/com/pwnetics/glass/haiku/DownloadHaikuPermalink.java:112-122 | The loop gives up exactly when some trimmed segment is longer than 45. Otherwise it yields the trimmed segments joined by single newlines, with the last newline cut off. |
| HaikuDownload.Parse | src/com/pwnetics/glass/haiku/DownloadHaikuPermalink.java:98-136 | The result for a body, or null when there is none. The title must match and split into exactly three pieces, each at most 45 chars once trimmed. The haiku is those pieces joined by newlines, and the author is `AuthorOf` the body. A result needs a body and a title match, and its author is never longer than 45. The lemmas of `ParseProperties` state the rest. |
| HaikuDownload.ExtractHaiku | src/com/pwnetics/glass/haiku/DownloadHaikuPermalink.java:98-136 | The step-by-step extraction returns exactly `Parse` of the body. |
| HaikuDownload.DownloadHaiku | src/com/pwnetics/glass/haiku/DownloadHaikuPermalink.java:59-99 | The permalink is marked visited exactly when the answer is a 200, even when reading the body fails or parsing rejects it. The result is `Parse` of the body, which is null without a 200 and a readable body. |
| JavaString.IndexOf | src/com/pwnetics/glass/haiku/DownloadHaikuPermalink.java:107 | The result is the first position at or after `from` holding `c`, or the length when there is none. |
| JavaString.Trim | src/com/pwnetics/glass/haiku/DownloadHaikuPermalink.java:114 | The trimmed text is no longer than the input and has no char at or below U+0020 at either end. |
| JavaString.TrimIsInfix | src/com/pwnetics/glass/haiku/DownloadHaikuPermalink.java:114 | `trim` removes only chars at or below U+0020, and only at the two ends. It gives the empty string exactly when every char is such a char. |
| JavaString.TrimIdempotent | src/com/pwnetics/glass/haiku/DownloadHaikuPermalink.java:114 | Trimming twice is trimming once. |
| JavaString.SplitAll | src/com/pwnetics/glass/haiku/DownloadHaikuPermalink.java:107 | The pieces between delimiters hold no delimiter and join back to the input. There is at least one piece. |
| JavaString.JavaSplit | src/com/pwnetics/glass/haiku/DownloadHaikuPermalink.java:107 | `split` pieces hold no delimiter. A non-empty input never yields a trailing empty piece. Without a delimiter the input comes back whole. With one, the result is the pieces between delimiters with only trailing empty pieces dropped. |
| JavaString.SplitAllJoin | src/com/pwnetics/glass/haiku/DownloadHaikuPermalink.java:107 | Splitting undoes joining when no part holds the delimiter. |
| JavaString.JavaSplitJoin | src/com/pwnetics/glass/haiku/DownloadHaikuPermalink.java:107 | `split` undoes joining when the last part is non-empty. |
| JavaString.JavaSplitJoinTrailing | src/com/pwnetics/glass/haiku/DownloadHaikuPermalink.java:107 | A single trailing delimiter is dropped by `split`. |
| FieldCapture.IsMatch | src/com/pwnetics/glass/haiku/DownloadHaikuPermalink.java:101-126 | When `Matcher.matches()` succeeds with the opener at `s[i..j]`, the group at `s[j..k]` and the closing quote at `s[k]`. The chars before `i` and after `k` are no line terminators. The title opener is `"title":`, Java whitespace and `"`; the author opener is `"author": "`. The group lies between two quotes, holds none itself, and is non-empty for the title. |
| FieldCapture.Capture | src/com/pwnetics/glass/haiku/DownloadHaikuPermalink.java:101-106 | The result is null exactly when the pattern cannot match. Otherwise it is the group of the match that starts last. The group holds no `"`, and the title group is non-empty. |
| FieldCapture.CaptureOfLastMatch | src/com/pwnetics/glass/haiku/DownloadHaikuPermalink.java:101 | A match with no match starting after it is the one reported. |
| FieldCapture.MatchAt | src/com/pwnetics/glass/haiku/DownloadHaikuPermalink.java:101 | At a given start there is at most one match, and this is it. |
| ParseProperties.ParseRoundTrip | src/com/pwnetics/glass/haiku/DownloadHaikuPermalink.java:101-136 | For `a`, `b`, `c` non-empty, trimmed, one-line, without `/` or `"`, at most 45 long, and a valid author `x`: the body `{"title": "a/b/c", "author": "x"}` yields the haiku `a\nb\nc` and the author `x`. |
| ParseProperties.NoBodyNoHaiku | src/com/pwnetics/glass/haiku/DownloadHaikuPermalink.java:98-100 | With no body, the result is null. |
| ParseProperties.MissingTitleRejected | src/com/pwnetics/glass/haiku/DownloadHaikuPermalink.java:101-105 | A body the title pattern does not match gives null. |
| ParseProperties.SegmentCountRejected | src/com/pwnetics/glass/haiku/DownloadHaikuPermalink.java:107-111 | A title of any segment count other than three gives null. For example `a/b` is refused. |
| ParseProperties.TrailingSlashAccepted | src/com/pwnetics/glass/haiku/DownloadHaikuPermalink.java:107-122 | The title `a/b/c/` is parsed like `a/b/c`. |
| ParseProperties.LongLineRejected | src/com/pwnetics/glass/haiku/DownloadHaikuPermalink.java:113-118 | One segment longer than 45 once trimmed makes the result null. |
| ParseProperties.ParseAccepts | src/com/pwnetics/glass/haiku/DownloadHaikuPermalink.java:106-136 | A matched title of three fitting trimmed segments always gives a result, whatever the author field holds. |
| ParseProperties.ParseSucceeded | src/com/pwnetics/glass/haiku/DownloadHaikuPermalink.java:101-136 | A non-null result comes from a matched title of three fitting trimmed segments, joined by newlines, with the best-effort author. |
| ParseProperties.ParsedLines | src/com/pwnetics/glass/haiku/DownloadHaikuPermalink.java:112-136 | For a one-line body, a non-null haiku has exactly three newline-separated lines. Each line is trimmed and at most 45 long, and so is the author. |

## Left out

- The HTTP plumbing (`HttpURLConnection` setup, timeouts, the User-Agent header, reading the body with a `Scanner`) is I/O. The server is a function parameter of `DownloadHaiku` from URL to outcome: no connection, a status code, or a 200 with its body text. The body is absent only when `getInputStream()` fails. A failure while the `Scanner` reads or when the stream is closed leaves the text read so far, possibly `""`, and that text is parsed. A `MalformedURLException` counts as no connection.
- `onPostExecute` and all of `HaikuActivity.java` (UI, connectivity checks, menus) are not part of this model. Neither is the `AsyncTask` background execution, which is concurrency with no logic of its own.
- SQLite mechanics are not modelled: `open`, `close`, `getDb`, `onUpgrade`, and seeding the table from Android resources in `onCreate`. The model starts from the empty table that `CREATE TABLE` makes.
- The uniformity of `RANDOM()` is a probabilistic property. The model only promises some unvisited key.
- Logging is not modelled, including the warning `markPermalinkAsVisited` logs when it updates a number of rows other than one.
- FieldCapture.IsMatch: follows Java SE's definitions of `\s` and of the line terminators that `.` refuses. Android's `java.util.regex` is backed by ICU, whose `\s` and `.` differ on some control and separator chars (for instance U+000B, U+000C and the `\p{Z}` spaces). JSON carries control chars only escaped, so the two can differ only for a body holding a raw Unicode separator (such as U+00A0, U+0085 or U+2028).
- JavaString.Trim: Java strings are UTF-16 code units and Dafny's `char` is a Unicode scalar value. Trimming and length are stated per `char`, so a haiku line with chars outside the Basic Multilingual Plane is counted differently from Java's `length()`.
- ParseProperties.ParsedLines: requires a one-line body. The pattern's `[^"]` group may contain line breaks even though the `.*` around it may not, and a title holding a newline would give more than three output lines.
- Because the leading `.*` is greedy, the model reports, as the code does, the match that starts last among the occurrences of `"title":` (or `"author": "`) that give a full match. An occurrence with an empty title group, or with no closing quote after it, is skipped in favour of an earlier one. A line break after the last closing quote is different: it lies in the trailing `.*` of every earlier occurrence too, so no occurrence matches. It does not claim that these are the post's own fields in a body with several.
