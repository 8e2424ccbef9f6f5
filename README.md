# MovieMAX core, modelled in Dafny

MovieMAX is an Android client for a catalogue of movies served from a set of
mirror servers. This project models the sequential logic at its core and proves
properties of it:

- **Catalog matcher** (`Catalog`). `matchMovies` scores catalogue rows against a
  free-text query: one point per equal (query token, name token) pair, plus 1000 when
  the normalised name contains the whole normalised query. It keeps the rows some
  available server serves, sorts them stably by descending score and returns the first
  20, with titles cut to 55 characters plus "...". The catalogue is a sequence of rows.
  The cursor walk is a `while` loop over that sequence, and the scoring is two nested loops.
- **Repository helpers** (`Repository`):
  - the poster file name derived from a key;
  - the SQLite header check;
  - the choice of the database entry inside a zip;
  - the three-attempt download with its back-off and file clean-up;
  - the filters applied before the poster cache and the AI cache are written;
  - the ping URL;
  - the OMDb poster choice.
- **History store and view model** (`History`, `ViewModel`).
  - `MovieMaxViewModel` is a class. Its `historyIndex` map and `order` sequence
    together model the Kotlin `LinkedHashMap`, whose `values` come in insertion order.
  - Its upserts, removal and clearing are methods. A `pendingSave` field stands for
    the debounced save job.
  - The view model publishes the history sorted by last-played time, at most 100
    entries. It also renders the history rows (`fmtTime`, `humanTime`).
  - Also modelled: the resume position of `openInternal`, the guard chain of
    `startSearch`, the server check and the throttled download-progress updater.
- **AI reply extraction** (`Ai`): the short-circuits of `recommendTitles`, the prompt,
  the request body, the path to the reply text, code-fence cleaning and
  `extractStringArray`.
- **Player helpers** (`Player`):
  - `findTrackOverride`, `getSelectedTrackInfo` and `buildTextTrackOptions`, each a loop over track groups;
  - `formatTime`;
  - the subtitle MIME type chosen from a file extension;
  - the double-tap seek.
- **Main screen helpers** (`MainScreen`): the quality badge, the history availability
  test, the year list and the AI panel flags.
- **Shared pieces.**
  - `Common` holds Kotlin's string and number primitives, restricted to ASCII: `trim`,
    `lowercase`, `split`, `ifBlank`, truncating `/` and `%`, and `Long.toInt()`.
  - `Sorting` is a stable descending sort by an integer key, which models `sortedByDescending`.
  - `Json` is a small JSON value type.

Environment inputs are parameters:
- the clock is `now`;
- ping results are a `seq<bool>`;
- HTTP exchanges and download attempts are values;
- the JSON parser is a function;
- the files are a `Disk` value or `Option`s.

## Model

| member | source | states |
|---|---|---|
| Common.Lower | app/src/main/java/com/moviemax/MovieRepository.kt:326 | `lowercase()` keeps the length; `Common.LowerAt` states each character is mapped on its own |
| Common.LowerIdempotent | app/src/main/java/com/moviemax/MainActivity.kt:1044 | lower-casing twice is lower-casing once |
| Common.Trim | app/src/main/java/com/moviemax/MovieRepository.kt:326 | `trim()` leaves no leading and no trailing whitespace and never lengthens |
| Common.TrimBlank | app/src/main/java/com/moviemax/MovieRepository.kt:323-327 | a string trims to nothing exactly when it is blank |
| Common.TrimChar | app/src/main/java/com/moviemax/MovieRepository.kt:143 | `trim('_')` leaves no leading and no trailing `_` |
| Common.IfBlank | app/src/main/java/com/moviemax/MovieMaxViewModel.kt:119 | `a.ifBlank { b }` is `a` unless `a` is blank, else `b` |
| Common.RemovePrefix | app/src/main/java/com/moviemax/AiRecommender.kt:95-96 | `removePrefix(p)` strips `p` exactly when the text starts with it, else returns the text |
| Common.RemoveSuffix | app/src/main/java/com/moviemax/AiRecommender.kt:97 | `removeSuffix(p)` strips `p` exactly when the text ends with it, else returns the text |
| Common.Take | app/src/main/java/com/moviemax/MovieRepository.kt:389 | `take(n)` is the prefix of length min(n, size) |
| Common.ReplaceChar | app/src/main/java/com/moviemax/AiRecommender.kt:83 | `replace("\n", " ")` changes exactly the newline characters |
| Common.Split | app/src/main/java/com/moviemax/AiRecommender.kt:113 | `split` yields at least one piece; `Common.SplitPieces` states no piece holds a delimiter |
| Common.TokensWellFormed | app/src/main/java/com/moviemax/MovieRepository.kt:327 | the tokens of `split(Regex("\\s+")).filter { it.isNotBlank() }` are non-blank and free of whitespace |
| Common.TDiv | app/src/main/java/com/moviemax/MovieMaxViewModel.kt:168-169 | Kotlin `/` truncates toward zero: for a ≥ 0 the quotient is non-negative and 0 ≤ a − q·b < b, for a < 0 it is non-positive and −b < a − q·b ≤ 0 |
| Common.TMod | app/src/main/java/com/moviemax/MovieMaxViewModel.kt:413 | Kotlin `%` pairs with truncating `/` and takes the sign of the dividend |
| Common.ToInt32 | app/src/main/java/com/moviemax/MovieMaxViewModel.kt:395 | `Long.toInt()` lands in the 32-bit range and is the identity there |
| Common.IntToString | app/src/main/java/com/moviemax/MovieMaxViewModel.kt:399 | an integer prints as its decimal digits, with "-" before a negative one |
| Common.NatToStringRoundTrip | app/src/main/java/com/moviemax/MainActivity.kt:277 | the decimal text of a number reads back as that number |
| Common.AsciiBytes | app/src/main/java/com/moviemax/MovieRepository.kt:301 | `toByteArray(US_ASCII)` gives one byte per character, equal to its code |
| Sorting.SortDesc | app/src/main/java/com/moviemax/MovieRepository.kt:389 | `sortedByDescending` returns a permutation of its input that is non-increasing in the key |
| Sorting.SortDescStable | app/src/main/java/com/moviemax/MovieRepository.kt:389 | the sort is stable: the elements with one key value keep their input order |
| Sorting.TopDrawn | app/src/main/java/com/moviemax/MovieRepository.kt:389 | the first n of the sorted list are drawn from the input, and all of it when fewer than n remain |
| Sorting.TopStable | app/src/main/java/com/moviemax/MovieRepository.kt:389 | among those kept, each key value's elements are the first of the input's with that value, in order |
| Sorting.TopKeepsBest | app/src/main/java/com/moviemax/MovieRepository.kt:389 | no element cut by `take(n)` has a larger key than a kept one |
| Json.Content | app/src/main/java/com/moviemax/AiRecommender.kt:92 | a JSON primitive has content (strings and numbers their text, booleans "true"/"false", null "null"), and only a primitive |
| Json.Field | app/src/main/java/com/moviemax/MovieRepository.kt:491 | `root["key"]` is present exactly when the value is an object with that key |
| Json.FieldOf | app/src/main/java/com/moviemax/AiRecommender.kt:124-131 | a key lookup on an optional element is present exactly when the element is an object with that key |
| Json.Element | app/src/main/java/com/moviemax/AiRecommender.kt:88 | `firstOrNull()`-style indexing is present exactly when the element is an array long enough, and is then `items[index]` |
| Json.FieldContent | app/src/main/java/com/moviemax/AiRecommender.kt:130-131 | a field's content is present exactly when the element is an object holding the key with a primitive value, and is then that primitive's content |
| Catalog.ServableIff | app/src/main/java/com/moviemax/MovieRepository.kt:474-479 | a link is servable iff some available server is a case-sensitive substring of it |
| Catalog.IsValidLink | app/src/main/java/com/moviemax/MovieRepository.kt:474-479 | the early-return loop returns true exactly for servable links |
| Catalog.ScoreRow | app/src/main/java/com/moviemax/MovieRepository.kt:360-368 | the nested loops count the equal (query token, name token) pairs, and add 1000 iff the name contains the whole query |
| Catalog.PairCountSymmetric | app/src/main/java/com/moviemax/MovieRepository.kt:363-367 | the pair count does not depend on which side is the outer loop |
| Catalog.PairCountBound | app/src/main/java/com/moviemax/MovieRepository.kt:363-367 | at most one point per (query token, name token) pair |
| Catalog.PhraseBonusDominates | app/src/main/java/com/moviemax/MovieRepository.kt:368 | while fewer than 1000 token pairs are possible, a score of 1000 or more means exactly that the name contains the whole query |
| Catalog.Score | app/src/main/java/com/moviemax/MovieRepository.kt:362-368 | a score is never negative |
| Catalog.ParseInt | app/src/main/java/com/moviemax/MovieRepository.kt:354 | `toIntOrNull()` gives only 32-bit values |
| Catalog.YearRoundTrip | app/src/main/java/com/moviemax/MovieRepository.kt:354 | a year column holding a 32-bit number's decimal text parses back to it |
| Catalog.TruncateTitle | app/src/main/java/com/moviemax/MovieRepository.kt:372 | a title over 55 characters becomes its first 55 plus "..."; a shorter one is kept |
| Catalog.RowMatch | app/src/main/java/com/moviemax/MovieRepository.kt:349-383 | a row gives at most one result, only with positive score and a servable link; its title is at most 58 long and its base name, link and poster are the row's |
| Catalog.Candidates | app/src/main/java/com/moviemax/MovieRepository.kt:348-384 | every collected result has positive score, a servable link, a title of at most 58, and comes from a catalogue row |
| Catalog.YearRows | app/src/main/java/com/moviemax/MovieRepository.kt:333-340 | without a year all rows are read; with one, only rows whose year column equals it |
| Catalog.MatchRow | app/src/main/java/com/moviemax/MovieRepository.kt:349-383 | one loop iteration, with its `continue`s, yields what `RowMatch` specifies |
| Catalog.CollectMatches | app/src/main/java/com/moviemax/MovieRepository.kt:348-384 | the cursor loop builds exactly the candidate list, in catalogue order |
| Catalog.MatchMovies | app/src/main/java/com/moviemax/MovieRepository.kt:318-390 | the method returns the specified result list |
| Catalog.MatchEmptyCases | app/src/main/java/com/moviemax/MovieRepository.kt:323-328 | a blank query, a missing database or a query without tokens gives no results |
| Catalog.MatchResultsValid | app/src/main/java/com/moviemax/MovieRepository.kt:349-383 | every result has score > 0, a servable link, a title of at most 58, and comes from a row of the requested year with that name and link |
| Catalog.MatchNoServers | app/src/main/java/com/moviemax/MovieRepository.kt:370 | with no available server there are no results |
| Catalog.MatchRanked | app/src/main/java/com/moviemax/MovieRepository.kt:389 | at most 20 results, non-increasing by score |
| Catalog.MatchStableTop | app/src/main/java/com/moviemax/MovieRepository.kt:389 | results are drawn from the candidates, ties keep catalogue order, and with fewer than 20 results every candidate is returned |
| Catalog.MatchKeepsBest | app/src/main/java/com/moviemax/MovieRepository.kt:389 | no candidate left out scores higher than a returned result |
| Repository.ReplaceRunsShape | app/src/main/java/com/moviemax/MovieRepository.kt:142 | replacing runs of non-`[a-z0-9]` characters by `_` leaves only `[a-z0-9_]` without "__", starting with `_` iff the key did not start with a key character |
| Repository.PosterStemShape | app/src/main/java/com/moviemax/MovieRepository.kt:139-145 | the poster file stem holds only `[a-z0-9_]`, has no "__" and no leading or trailing `_` |
| Repository.PosterStemIdempotent | app/src/main/java/com/moviemax/MovieRepository.kt:139-145 | sanitising a sanitised stem changes nothing |
| Repository.LocalPosterPath | app/src/main/java/com/moviemax/MovieRepository.kt:147-151 | a path comes back exactly for a non-blank key whose poster file exists, and it is that file |
| Repository.SqliteMagicBytes | app/src/main/java/com/moviemax/MovieRepository.kt:301 | the magic bytes are the ASCII encoding of "SQLite format 3\0" |
| Repository.IsValidSqlite | app/src/main/java/com/moviemax/MovieRepository.kt:293-306 | a file is valid iff it exists, has at least 16 bytes, and its first 16 are the magic |
| Repository.FirstDbEntry | app/src/main/java/com/moviemax/MovieRepository.kt:276-286 | the entry chosen is the first non-directory one whose lower-cased name ends in ".db" or contains "movie_database"; none is chosen iff no entry qualifies |
| Repository.UnzipDb | app/src/main/java/com/moviemax/MovieRepository.kt:271-291 | the entry loop fails for a missing zip or no qualifying entry, and otherwise yields the first qualifying entry's data |
| Repository.AttemptOutcome | app/src/main/java/com/moviemax/MovieRepository.kt:219-257 | an attempt succeeds only with a valid SQLite file; a failed request fails with its message |
| Repository.BackoffSpec | app/src/main/java/com/moviemax/MovieRepository.kt:263-265 | after k failures the delays are 1500, 3000, … ms, one per failure except after the third |
| Repository.FirstSuccess | app/src/main/java/com/moviemax/MovieRepository.kt:218-267 | an attempt index it reports is among the first n and succeeded |
| Repository.FirstSuccessSpec | app/src/main/java/com/moviemax/MovieRepository.kt:218-267 | the first successful attempt is reported and all before it failed; none is reported iff all n failed |
| Repository.FirstSuccessStays | app/src/main/java/com/moviemax/MovieRepository.kt:257 | once an attempt succeeds, later attempts do not change the outcome |
| Repository.Attempt | app/src/main/java/com/moviemax/MovieRepository.kt:219-257 | one attempt's outcome is `AttemptOutcome`; on success the temporary file holds the database, and the database file is untouched |
| Repository.DownloadDb | app/src/main/java/com/moviemax/MovieRepository.kt:211-269 | at the first successful attempt the database is replaced, requests = attempt + 1 and the delays are the back-off so far; if all 3 fail, the last error is returned, the database is gone and 3 requests were made; no temporary file remains |
| Repository.SavePosterCache | app/src/main/java/com/moviemax/MovieRepository.kt:423-437 | the file is removed iff every value is blank; otherwise exactly the non-blank entries are written, unchanged |
| Repository.SaveAiCache | app/src/main/java/com/moviemax/MovieRepository.kt:449-459 | the file is removed iff the cache is null or has no items; otherwise the cache is written as is |
| Repository.PingUrl | app/src/main/java/com/moviemax/MovieRepository.kt:309 | the URL starts with "http": the server itself when it does, else "http://" + server |
| Repository.PingUrlIdempotent | app/src/main/java/com/moviemax/MovieRepository.kt:309 | normalising a normalised URL changes nothing |
| Repository.FirstPoster | app/src/main/java/com/moviemax/MovieRepository.kt:494-500 | the poster picked is the first search item's poster that is non-blank and not "N/A"; none iff no item has one |
| Repository.PickPoster | app/src/main/java/com/moviemax/MovieRepository.kt:494-500 | the loop with `continue` and early return yields that first usable poster |
| Repository.ExactPoster | app/src/main/java/com/moviemax/MovieRepository.kt:504-512 | the exact-title lookup yields only a usable poster |
| Repository.OmdbPoster | app/src/main/java/com/moviemax/MovieRepository.kt:481-516 | a blank title or key gives nothing, and any poster returned is non-blank and not "N/A" |
| Repository.OmdbExactOnlyWhenAsked | app/src/main/java/com/moviemax/MovieRepository.kt:487-502 | unless the search answered "True" with an array holding no usable poster, the exact lookup does not matter |
| Repository.OmdbExactWhenAsked | app/src/main/java/com/moviemax/MovieRepository.kt:502-512 | when the search finds no usable poster, the answer is the exact lookup's |
| History.Values | app/src/main/java/com/moviemax/MovieMaxViewModel.kt:185 | `historyIndex.values` lists the entry of each key, in insertion order |
| History.PutValues | app/src/main/java/com/moviemax/MovieMaxViewModel.kt:184 | `historyIndex[link] = e` keeps the index consistent, replaces an existing entry in place, and appends a new one at the end |
| History.Drop | app/src/main/java/com/moviemax/MovieMaxViewModel.kt:263 | removing a key from the order drops exactly that key and keeps it duplicate-free |
| History.RemoveKeepsIndex | app/src/main/java/com/moviemax/MovieMaxViewModel.kt:263 | `historyIndex.remove(link)` keeps the index consistent |
| History.LoadNext | app/src/main/java/com/moviemax/MovieMaxViewModel.kt:345 | `associateBy` adds the entries one by one, each as a put |
| History.LoadSpec | app/src/main/java/com/moviemax/MovieMaxViewModel.kt:345 | the loaded index holds every link of the file, each with the last entry for it, and nothing else |
| History.LoadStep | app/src/main/java/com/moviemax/MovieMaxViewModel.kt:345 | adding one entry keeps the loaded-index facts |
| History.RecentSpec | app/src/main/java/com/moviemax/MovieMaxViewModel.kt:185 | the published history has at most 100 entries, is non-increasing in last-played time, and is drawn from the index |
| History.RecentKeepsLatest | app/src/main/java/com/moviemax/MovieMaxViewModel.kt:185 | no entry cut from the published list was played later than one kept |
| History.RecentStable | app/src/main/java/com/moviemax/MovieMaxViewModel.kt:185 | entries with one timestamp keep index order |
| History.OneEntryPublished | app/src/main/java/com/moviemax/MovieMaxViewModel.kt:185 | an index of one entry publishes just that entry |
| History.Pad2 | app/src/main/java/com/moviemax/MovieMaxViewModel.kt:418 | `%02d` of a natural number is all digits and at least two of them, exactly two below 100 |
| History.Pad2Value | app/src/main/java/com/moviemax/MovieMaxViewModel.kt:418 | the padded digits read back as the number |
| History.FmtTime | app/src/main/java/com/moviemax/MovieMaxViewModel.kt:410-422 | the clock text is always at least "mm:ss" long |
| History.ClockValue | app/src/main/java/com/moviemax/MovieMaxViewModel.kt:418-420 | a clock text reads as a non-negative number of seconds |
| History.ClockReadsBack | app/src/main/java/com/moviemax/MovieMaxViewModel.kt:417-421 | the clock of h, mm < 60 and s < 60 reads back as 3600h + 60mm + s, and is "mm:ss" iff h = 0 |
| History.FmtTimeFields | app/src/main/java/com/moviemax/MovieMaxViewModel.kt:410-422 | below 2^31 seconds the fields are the whole hours, the minutes within the hour and the seconds within the minute |
| History.FmtTimeRoundTrip | app/src/main/java/com/moviemax/MovieMaxViewModel.kt:410-422 | below 2^31 seconds `fmtTime` reads back as its input, and is short iff under an hour |
| History.ClockSplit | app/src/main/java/com/moviemax/MovieMaxViewModel.kt:412-416 | hours, minutes and seconds recompose the seconds |
| History.HumanTime | app/src/main/java/com/moviemax/MovieMaxViewModel.kt:393-408 | "" iff the timestamp is not positive; "just now" iff the 32-bit delta is under a minute |
| History.HumanTimeUnits | app/src/main/java/com/moviemax/MovieMaxViewModel.kt:397-406 | the minutes, hours or days shown are the whole units elapsed, at least 1 and below the next unit, with "1 hour ago" and "1 day ago" in the singular |
| History.RenderHistory | app/src/main/java/com/moviemax/MovieMaxViewModel.kt:377-391 | one row per entry in order, titled by its name, linked by its link, with "pos / dur" or "Player" and the age when known |
| ViewModel.Lookup | app/src/main/java/com/moviemax/MovieMaxViewModel.kt:120 | `historyIndex[link]` is present iff the key is, and is its entry |
| ViewModel.Played | app/src/main/java/com/moviemax/MovieMaxViewModel.kt:354-368 | a replay stamps `now`, keeps an existing entry except a non-blank new title, or starts a new entry at 0/0 |
| ViewModel.Progressed | app/src/main/java/com/moviemax/MovieMaxViewModel.kt:166-183 | position and duration become max(0, ms/1000) truncated, the stamp `now`, the name the non-blank title or the old name (the link for a new entry), and everything else is kept |
| ViewModel.Tracked | app/src/main/java/com/moviemax/MovieMaxViewModel.kt:195-231 | all ten track fields are overwritten, nulls included, with the stamp; position and duration are kept, or 0 for a new entry |
| ViewModel.ResumeMs | app/src/main/java/com/moviemax/MovieMaxViewModel.kt:120-125 | the resume point is 0 unless an entry existed with duration > 0 and position > 0; then it is position·1000 wrapped to 64 bits, which is position·1000 itself below 2^63 |
| ViewModel.Launch | app/src/main/java/com/moviemax/MovieMaxViewModel.kt:117-143 | the player opens the link with the title or the link, at the resume point, with the saved track choices |
| ViewModel.PlanSearch | app/src/main/java/com/moviemax/MovieMaxViewModel.kt:79-94 | servers first, then the database, then a trimmed query of at least 2 chars, each failure with its own status; the year is null iff "No Year" |
| ViewModel.ResultItems | app/src/main/java/com/moviemax/MovieMaxViewModel.kt:99 | one item per result, with its title and link |
| ViewModel.Reachable | app/src/main/java/com/moviemax/MovieMaxViewModel.kt:319-341 | the servers kept are exactly those whose ping succeeded |
| ViewModel.MovieMaxViewModel.constructor | app/src/main/java/com/moviemax/MovieMaxViewModel.kt:343-347 | start-up (`init`, which calls `loadHistory`) loads the saved history into the index and renders it, with no server yet and no pending save |
| ViewModel.MovieMaxViewModel.Put | app/src/main/java/com/moviemax/MovieMaxViewModel.kt:184 | an upsert changes only `historyIndex[link]` and keeps insertion order |
| ViewModel.MovieMaxViewModel.Remove | app/src/main/java/com/moviemax/MovieMaxViewModel.kt:263 | removes exactly that key |
| ViewModel.MovieMaxViewModel.SaveHistoryPlayback | app/src/main/java/com/moviemax/MovieMaxViewModel.kt:354-375 | the link's entry becomes the replayed one, the rest is kept, and the capped history is saved and rendered |
| ViewModel.MovieMaxViewModel.UpdateHistoryProgress | app/src/main/java/com/moviemax/MovieMaxViewModel.kt:166-193 | a blank link changes nothing; otherwise only the link's entry changes, the history is rendered and its save becomes pending |
| ViewModel.MovieMaxViewModel.UpdateTrackSelection | app/src/main/java/com/moviemax/MovieMaxViewModel.kt:195-241 | a blank link changes nothing; otherwise only the link's entry changes, the history is rendered and its save becomes pending |
| ViewModel.MovieMaxViewModel.FlushSave | app/src/main/java/com/moviemax/MovieMaxViewModel.kt:189-191 | the pending save, if any, is written, and nothing else changes |
| ViewModel.MovieMaxViewModel.ClearHistoryAsWritten | app/src/main/java/com/moviemax/MovieMaxViewModel.kt:254-259 | index, order, saved file and shown history are emptied, but a pending save is left in place |
| ViewModel.MovieMaxViewModel.ClearHistory | app/src/main/java/com/moviemax/MovieMaxViewModel.kt:254-259 | the same, and the pending save is cancelled |
| ViewModel.MovieMaxViewModel.RemoveHistoryItemAsWritten | app/src/main/java/com/moviemax/MovieMaxViewModel.kt:261-268 | a blank link changes nothing; otherwise exactly that key goes and the capped history is saved and shown, but a pending save is left in place |
| ViewModel.MovieMaxViewModel.RemoveHistoryItem | app/src/main/java/com/moviemax/MovieMaxViewModel.kt:261-268 | the same, and the pending save is cancelled |
| ViewModel.MovieMaxViewModel.OpenInternal | app/src/main/java/com/moviemax/MovieMaxViewModel.kt:117-144 | a blank link changes nothing; otherwise the playback is recorded and the player opens at the resume point computed from the entry before the update |
| ViewModel.MovieMaxViewModel.OpenResult | app/src/main/java/com/moviemax/MovieMaxViewModel.kt:108-111 | a blank link changes nothing; otherwise the same as `openInternal` |
| ViewModel.MovieMaxViewModel.ClosePlayer | app/src/main/java/com/moviemax/MovieMaxViewModel.kt:146-164 | the player state is cleared and nothing else changes |
| ViewModel.MovieMaxViewModel.OpenExternal | app/src/main/java/com/moviemax/MovieMaxViewModel.kt:243-252 | a blank link changes nothing; a refused launch only sets its status; a started one records the playback and sets its status |
| ViewModel.MovieMaxViewModel.StartSearch | app/src/main/java/com/moviemax/MovieMaxViewModel.kt:79-106 | a refused search only sets its status; otherwise the results tab shows the matcher's results, with a status by their count |
| ViewModel.MovieMaxViewModel.CheckServers | app/src/main/java/com/moviemax/MovieMaxViewModel.kt:319-341 | the available servers are the reachable ones, searching is allowed iff there is one, and the status shows the count |
| ViewModel.PingAll | app/src/main/java/com/moviemax/MovieMaxViewModel.kt:321-325 | the loop appends exactly the reachable servers, in list order |
| ViewModel.ClearedHistoryComesBack | app/src/main/java/com/moviemax/MovieMaxViewModel.kt:254-259 | as written, a progress update followed by `clearHistory` still writes the entry when the debounced save fires |
| ViewModel.ClearedHistoryStaysCleared | app/src/main/java/com/moviemax/MovieMaxViewModel.kt:254-259 | with the pending save cancelled, the file stays empty |
| ViewModel.RemovedItemComesBack | app/src/main/java/com/moviemax/MovieMaxViewModel.kt:261-268 | as written, a progress update followed by `removeHistoryItem` of that link writes the entry back |
| ViewModel.RemovedItemStaysRemoved | app/src/main/java/com/moviemax/MovieMaxViewModel.kt:261-268 | with the pending save cancelled, the removal sticks |
| ViewModel.ToInt64 | app/src/main/java/com/moviemax/MovieMaxViewModel.kt:443 | `Long` arithmetic wraps to 64 bits and is exact inside that range |
| ViewModel.PercentDone | app/src/main/java/com/moviemax/MovieMaxViewModel.kt:443 | the percentage is clamped to 0..100 |
| ViewModel.PercentOfDownload | app/src/main/java/com/moviemax/MovieMaxViewModel.kt:443 | without overflow the percentage is bytes·100/total, and 100 iff the download is complete |
| ViewModel.ProgressUpdater.constructor | app/src/main/java/com/moviemax/MovieMaxViewModel.kt:439-440 | a fresh updater has reported no percentage (-1) at time 0 |
| ViewModel.ProgressUpdater.Invoke | app/src/main/java/com/moviemax/MovieMaxViewModel.kt:441-456 | with a total, the percentage is reported unless it repeats the last within 300 ms; without one, the bytes at most every 300 ms; suppressed calls change nothing |
| Ai.BulletLines | app/src/main/java/com/moviemax/AiRecommender.kt:39 | one "- title" line per title, in order |
| Ai.PromptLines | app/src/main/java/com/moviemax/AiRecommender.kt:37-44 | the prompt is the header, then one bullet for each of the first 20 titles in order, then a blank line and the instructions |
| Ai.RequestFor | app/src/main/java/com/moviemax/AiRecommender.kt:30-77 | no request is made iff the key is blank or the history empty |
| Ai.RequestCarriesPrompt | app/src/main/java/com/moviemax/AiRecommender.kt:46-62 | the request body's `contents[0].parts[0].text` is the prompt |
| Ai.ReplyTextPath | app/src/main/java/com/moviemax/AiRecommender.kt:86-92 | the `candidates[0].content.parts[0].text` path reads back the text it holds |
| Ai.ReplyTextFound | app/src/main/java/com/moviemax/AiRecommender.kt:86-92 | a reply whose every step of `candidates[0].content.parts[0].text` is present, ending in a primitive, reads as that primitive's content |
| Ai.ReplyTextMissing | app/src/main/java/com/moviemax/AiRecommender.kt:86-92 | a reply missing any step of the path (no candidates, an empty list, no `content`, missing or empty `parts`, no primitive `text`) reads as "" |
| Ai.CleanTrimmed | app/src/main/java/com/moviemax/AiRecommender.kt:94-98 | cleaned text has no leading or trailing whitespace |
| Ai.CleanFenced | app/src/main/java/com/moviemax/AiRecommender.kt:94-98 | a "```json … ```" fence around a payload cleans to the trimmed payload |
| Ai.Pieces | app/src/main/java/com/moviemax/AiRecommender.kt:114-115 | the kept pieces are non-blank and neither begin nor end with '"' |
| Ai.Contents | app/src/main/java/com/moviemax/AiRecommender.kt:111 | at most one string per array element |
| Ai.ExtractStringArray | app/src/main/java/com/moviemax/AiRecommender.kt:109-119 | an object gives nothing, an array at most one string per element, and text only non-blank, unquoted pieces |
| Ai.StringArrayRoundTrip | app/src/main/java/com/moviemax/AiRecommender.kt:111 | an array of strings gives back exactly those strings |
| Ai.ArrayDropsStructures | app/src/main/java/com/moviemax/AiRecommender.kt:111 | a non-primitive element is dropped and the rest keep their order |
| Ai.SplitJoin | app/src/main/java/com/moviemax/AiRecommender.kt:113 | comma-joined plain titles split back into those titles |
| Ai.TextFallbackRoundTrip | app/src/main/java/com/moviemax/AiRecommender.kt:112-116 | comma-separated plain titles as text give back exactly those titles |
| Ai.RecommendTitles | app/src/main/java/com/moviemax/AiRecommender.kt:28-107 | a blank key fails with "Missing GEMINI_API_KEY"; empty history succeeds with nothing; a non-2xx reply fails with "HTTP code: " and the one-line snippet; a success with titles needs a 2xx reply that parses |
| Ai.BlankKeyAsksNothing | app/src/main/java/com/moviemax/AiRecommender.kt:30-32 | with a blank key the reply does not matter and no request exists |
| Ai.MissingPathGivesNothing | app/src/main/java/com/moviemax/AiRecommender.kt:86-102 | a 2xx reply missing any step of the reply path succeeds with no titles |
| Ai.FencedArrayGivesTitles | app/src/main/java/com/moviemax/AiRecommender.kt:94-102 | a fenced JSON array of strings in the reply text gives exactly those strings |
| Player.FindTrackOverride | app/src/main/java/com/moviemax/PlayerScreen.kt:1064-1089 | a valid (group, track) index wins; otherwise the first track of the type, in group then track order, matching a non-blank label or language; none iff no track matches; with both blank, none |
| Player.GetSelectedTrackInfo | app/src/main/java/com/moviemax/PlayerScreen.kt:995-1013 | the first selected track of the type, in group then track order, with its label and language; none iff none is selected |
| Player.OptionLabelNonBlank | app/src/main/java/com/moviemax/PlayerScreen.kt:938-942 | a subtitle option's label is never blank |
| Player.BuildTextTrackOptions | app/src/main/java/com/moviemax/PlayerScreen.kt:932-955 | one option per track of every text group, in order, labelled by label, else upper-cased language, else "Subtitle i+1", and nothing else |
| Player.PlayerFormatTime | app/src/main/java/com/moviemax/PlayerScreen.kt:1197-1198 | "00:00" for a non-positive time |
| Player.PlayerFormatTimeFields | app/src/main/java/com/moviemax/PlayerScreen.kt:1199-1207 | below 2^31 seconds the fields are whole hours, minutes within the hour and seconds within the minute |
| Player.PlayerMatchesHistory | app/src/main/java/com/moviemax/PlayerScreen.kt:1197-1208 | the player's clock of ms equals the history's clock of ms/1000 |
| Player.PlayerFormatTimeRoundTrip | app/src/main/java/com/moviemax/PlayerScreen.kt:1197-1208 | below 2^31 seconds the clock reads back as the whole seconds, and is "mm:ss" iff under an hour |
| Player.AfterLast | app/src/main/java/com/moviemax/PlayerScreen.kt:1215 | `substringAfterLast('.', "")` is "" without a dot, else the dot-free tail after the last one |
| Player.AfterLastOf | app/src/main/java/com/moviemax/PlayerScreen.kt:1215 | the extension after the last dot of "stem.ext" is ext |
| Player.MimeForExtension | app/src/main/java/com/moviemax/PlayerScreen.kt:1216-1222 | srt, ass/ssa and ttml/dfxp/xml each map to their type, and exactly every other extension to "text/vtt" |
| Player.SubtitleMime | app/src/main/java/com/moviemax/PlayerScreen.kt:1210-1222 | a non-blank resolver type wins; otherwise the lower-cased extension decides |
| Player.MimeOfName | app/src/main/java/com/moviemax/PlayerScreen.kt:1214-1222 | a name without a dot is "text/vtt"; "stem.ext" is typed by ext |
| Player.SeekBack | app/src/main/java/com/moviemax/PlayerScreen.kt:476 | back seeks to max(0, pos − 10000) |
| Player.SeekForward | app/src/main/java/com/moviemax/PlayerScreen.kt:481-485 | forward seeks to min(dur, pos + 10000) with a duration, else pos + 10000 |
| Player.DoubleTap | app/src/main/java/com/moviemax/PlayerScreen.kt:474-491 | the left third seeks back, the right third seeks forward (bounded by a positive duration), and the middle third does not seek but pauses iff playing |
| Player.SeekWithinMedia | app/src/main/java/com/moviemax/PlayerScreen.kt:476-485 | from inside the media both seeks stay inside it, and forward undoes a back step that did not hit 0 |
| MainScreen.ExtractQualityBadge | app/src/main/java/com/moviemax/MainActivity.kt:1043-1052 | a badge is one of SD, UHD, FHD, HD |
| MainScreen.MarkedIff | app/src/main/java/com/moviemax/MainActivity.kt:1046-1049 | a badge's marker test is its two substrings |
| MainScreen.BadgeIsFirstMarked | app/src/main/java/com/moviemax/MainActivity.kt:1045-1050 | the badge is a given one iff its markers occur and no earlier badge's do |
| MainScreen.NoBadgeIff | app/src/main/java/com/moviemax/MainActivity.kt:1045-1051 | no badge iff none of the eight markers occurs |
| MainScreen.BadgeIgnoresCase | app/src/main/java/com/moviemax/MainActivity.kt:1044 | badge(lowercase(t)) = badge(t) |
| MainScreen.BadgeOfUpper | app/src/main/java/com/moviemax/MainActivity.kt:1044 | badge(uppercase(t)) = badge(t) |
| MainScreen.SdWins | app/src/main/java/com/moviemax/MainActivity.kt:1046 | any title containing "sd" in any case is badged SD |
| MainScreen.WednesdayIsSD | app/src/main/java/com/moviemax/MainActivity.kt:1046-1048 | "Wednesday 1080p" is badged SD, not FHD |
| MainScreen.IsAvailableIff | app/src/main/java/com/moviemax/MainActivity.kt:787-789 | a history row is available iff some server is a case-insensitive substring of its link |
| MainScreen.ServableIsAvailable | app/src/main/java/com/moviemax/MainActivity.kt:787-789 | a link the matcher accepts is shown as available, and for lower-case text the two tests agree |
| MainScreen.YearsDown | app/src/main/java/com/moviemax/MainActivity.kt:277 | `currentYear downTo 2000` has max(0, currentYear − 1999) entries |
| MainScreen.YearsDownAt | app/src/main/java/com/moviemax/MainActivity.kt:277 | its i-th entry is the text of currentYear − i, at least 2000 |
| MainScreen.YearsShape | app/src/main/java/com/moviemax/MainActivity.kt:276-278 | "No Year" first, then currentYear − 2000 + 1 year texts counting down |
| MainScreen.YearAt | app/src/main/java/com/moviemax/MainActivity.kt:277 | entry i ≥ 1 is the text of currentYear − i + 1 |
| MainScreen.YearsDescending | app/src/main/java/com/moviemax/MainActivity.kt:277 | later entries are earlier years |
| MainScreen.YearOffered | app/src/main/java/com/moviemax/MainActivity.kt:276-278 | a year is offered iff 2000 ≤ year ≤ currentYear |
| MainScreen.AiPanels | app/src/main/java/com/moviemax/MainActivity.kt:441-442 | the AI list and the AI hint are never both shown, and one is shown iff there are no results and some history |

## Left out

- I/O is not modelled: HTTP, the SQLite engine, the file system and the JSON encoder and parser. Their results are inputs: ping booleans, one `Fetch` per download attempt, a parser function, catalogue rows and a `Disk` value.
- `downloadDb`'s file handling is modelled on a `Disk` value, not on real files: rename-or-copy is one step, and errors thrown by the deletions themselves are not modelled.
- The download's byte-stream loop and its `onProgress` calls are not modelled. The progress updater is modelled on its own.
- History JSON serialisation is not modelled (`loadHistory`, `saveHistory`, `loadPosterCache`, `loadAiCache`). The saved history is a `seq<HistoryEntry>`.
- `downloadPosterToFile` is not modelled. It is file and HTTP work, and only `posterFileForKey` and `getLocalPosterPath` decide anything.
- The database version fetch and file are not modelled (`getLocalDbVersion`, `saveLocalDbVersion`, `fetchRemoteDbVersion`), and neither is `ensureDb`, which only orders these calls.
- `findPosterByBaseName` is not modelled: its rule is a `COLLATE NOCASE` SQL query.
- Coroutines and timing are left out. The 1.5 s debounce is a `pendingSave` field that `FlushSave` writes. The 7 s status auto-clear of `setStatus` is not modelled; the status is set and stays.
- `checkServers` is modelled only by its final state; its incremental UI updates during the loop are left out.
- The "x.xMB" text of the progress updater is not modelled because it uses `Double` formatting; the model reports the byte count.
- History.Pad2: always prints ASCII digits, as do `History.FmtTime` and `Player.PlayerFormatTime`. The source's `String.format("%02d…")` (MovieMaxViewModel.kt:418-420, PlayerScreen.kt:1203-1206) uses the default locale, which may print other digits, so the clock round-trip lemmas describe the output in an ASCII-digit locale only.
- Text is ASCII only. `lowercase`, `uppercase`, `trim`, `isBlank`, regex `\s` and `contains(ignoreCase = true)` are modelled for ASCII; Kotlin's Unicode case mapping is broader.
- Compose UI, ExoPlayer calls and their listeners are left out, including `applySavedTrackSelection` and `applySubtitleSelection`, and so are `AudioManager` and brightness. Only the selection decisions are modelled, over an abstract `Group`/`Track` datatype.
- `DragState` and the swipe thresholds use floats and are left out. The double-tap region test `offset.x < third` is a `TapRegion` input.
- The calls at MainActivity.kt:189-196 have no target in `MovieMaxViewModel` (`refreshAiNow`, `aiResults`, a 4-argument `openResult`). So `MainScreen.ShowAi` takes the AI result count as a number.
- `onQueryChange`, `onYearChange` and `onTabSelected` are field setters and are not modelled. `openHistory` is not modelled separately, because it is `openInternal` itself.
- Player.PlayerFormatTimeFields: stated only for times below 2^31 seconds. Above that, `PlayerFormatTime` follows Kotlin's `toInt()` wrap, but no field property is stated for it.
- History.FmtTimeFields: stated only below 2^31 seconds, for the same reason.
- History.HumanTimeUnits: stated for a delta between 0 and 2^31 seconds. `HumanTime` itself follows the 32-bit wrap of `toInt()`.
- ViewModel.PercentOfDownload: stated for totals below 2^48, where `bytes * 100` cannot overflow a `Long`. `PercentDone` itself wraps as Kotlin does.
- Player.SeekForward: the 64-bit wrap of `pos + 10_000L` is not modelled. Positions are unbounded integers.
- The `LinkedHashMap` of the history index is a map plus an insertion-order sequence, not a hash table.
- Ai.MissingPathGivesNothing: assumes the parser rejects the empty text, as kotlinx's `parseToJsonElement("")` does.
- The AI panel flags are plain conjunctions, so `MainScreen.AiPanels` needs no proof steps.
- The example "iron man 2" against "iron man" scoring 2 is covered only by the general `Catalog.ScoreRow` and `Catalog.PairCountSymmetric` contracts. No concrete lemma is stated for it.

## Findings

| source | as written | input that shows it | evidently intended | confidence | as-written member | corrected member |
|---|---|---|---|---|---|---|
| app/src/main/java/com/moviemax/MovieMaxViewModel.kt:254-259 | `clearHistory` empties the index and the file but leaves `historySaveJob` running | any non-blank link: `updateHistoryProgress(link, …)`, then `clearHistory()` within 1.5 s; the pending save writes the entry back | cancel the pending save so the history stays cleared | not executed | ViewModel.ClearedHistoryComesBack | ViewModel.ClearedHistoryStaysCleared |
| app/src/main/java/com/moviemax/MovieMaxViewModel.kt:261-268 | `removeHistoryItem` saves the reduced history but leaves `historySaveJob` running | any non-blank link: `updateHistoryProgress(link, …)`, then `removeHistoryItem(link)` within 1.5 s; the pending save writes the removed entry back | cancel the pending save so the removal sticks | not executed | ViewModel.RemovedItemComesBack | ViewModel.RemovedItemStaysRemoved |
