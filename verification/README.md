# Release tracker core, modelled in Dafny

This project models the release-tracking pipeline of a chat bot that watches the
MangaUpdates releases page (`main.py`). HTML, network, files and the chat
platform are stripped away; what remains is pure logic over plain data:

- **Row extraction** (`Releases`): a scraped row is the list of its column texts
  plus the optional span text of the title column. A row yields a release record
  (title, chapter, group, key) or is dropped. The identity key is
  `title|release|group` built from the raw group text; an empty group is stored
  as `"Unknown"`.
- **Cache fallback and persistence** (`Store`): a non-empty parse replaces the
  cached listing and rewrites the cache file. An empty parse or a failed fetch
  serves the previous cache unchanged. The two JSON files are modelled as a
  `Disk` value inside the bot `State`.
- **Detection** (`Detection`): the diff of one monitor cycle against the seen-set.
  It is modelled three ways: as the loop itself (`RunDetection`), as a functional
  model of the loop's state (`Detect`), and as an index-based reference
  (`FreshAt` / `FirstSightings`). Lemmas connect the three.
- **Batching and display** (`Batching`, `Monitor`): new releases are posted in
  messages of five. `.latestrelease` shows the whole listing in pages of ten,
  with "Showing a-b of n" labels and titles truncated to 80 characters.
  `MonitorCycle` and `LatestRelease` are the step functions over the bot state.
- **On-demand helpers** (`Lookup`): absolute links, the 100/200/300-character
  limits, search-result and browse-page extraction, and the bounded retry loop
  of `.randomseries`.

Details of the code that are easy to misread, and that the model follows:
- The key is built from the raw group, so an empty group gives a key ending in `|`,
  not `|Unknown`. See `Releases.RawGroupInKey`.
- New-release notifications show the full title. Only `.latestrelease` truncates.
- The fallback `cached_releases if cached_releases else []` always equals the
  cache itself.
- The `.randomseries` retry loop already stops as soon as the list is non-empty,
  because its `while` condition tests the list.
- A span element in the title column wins even when its text is empty, since a
  found tag is always truthy. Such a row is dropped even if the column's own
  text is non-empty.

## Model

| member | source | states |
|---|---|---|
| Releases.ParseRow | main.py:131-148 | A row yields a record iff it has at least 3 columns, a non-empty title (span text if present, else column 0) and a non-empty column 1. The record is well formed. Its group is "Unknown" exactly when column 2 is empty or literally "Unknown". Its key is made from the raw column-2 text. |
| Releases.ParseRows | main.py:125-153 | Parsing never yields more records than rows, and every record has non-empty title, chapter and group and a key of the documented shape. |
| Releases.ExtraColumnsIgnored | main.py:131-140 | Columns past the third never change the record. |
| Releases.ParseRowsAppend | main.py:125-153 | The records of a page are the records of its parts, in order, so dropped rows do not disturb the others. |
| Releases.ParseRowsAllAccepted | main.py:125-148 | N well-formed rows give exactly N records, record k coming from row k. |
| Releases.ParseRowsAllRejected | main.py:131-142 | Malformed rows (too few columns, empty title or release) contribute no record. |
| Releases.KeySeparatesTitles | main.py:147 | With release and group fixed, different titles give different keys. |
| Releases.KeySeparatesReleases | main.py:147 | With title and group fixed, different releases give different keys. |
| Releases.KeySeparatesGroups | main.py:147 | With title and release fixed, different raw groups give different keys. |
| Releases.KeyRoundTrip | main.py:147 | Splitting a key on '\|' gives back title, release and raw group when none of them contains '\|'. |
| Releases.KeyCollision | main.py:147 | The delimiter is not escaped, so two different field triples can share a key. |
| Releases.RawGroupInKey | main.py:140-147 | A row with an empty group and one whose group reads "Unknown" display the same, but their keys differ, and the former's key ends in '\|'. |
| Releases.DisplayGroup | main.py:146 | An empty raw group is displayed as "Unknown". Any other raw group is displayed as it is. |
| Store.Startup | main.py:19-44 | Each store is loaded from its file, or starts empty if the file is missing, so memory and disk agree at start-up. |
| Store.FetchReleases | main.py:155-168 | The cache is rewritten iff the fetch succeeded and parsed at least one record, and then that parse is served. Otherwise the old cache is served unchanged. The served listing is the cache afterwards, and a non-empty cache is never blanked out. |
| Store.FetchInto | main.py:155-158 | Fetching through the state rewrites the cache file exactly when the fetch parsed at least one record (`saved`), even if the listing is unchanged, and leaves it alone otherwise. Memory and disk stay in step. The seen-set is untouched. |
| Store.FallbackServesLastGood | main.py:155-168 | After a successful fetch, a later failed or empty fetch serves that same listing. |
| Store.FetchKeepsWellFormed | main.py:155-168 | If the cache holds well-formed records, everything served is well formed. |
| Detection.Detect | main.py:188-194 | After the loop, the seen-set is the old set plus every key of the listing, and the keys of the new releases are exactly the listing's keys not in the old set. |
| Detection.NewReleasesAreUnseenAndDistinct | main.py:188-194 | New releases have pairwise distinct keys, none in the old seen-set, all taken from the listing. The seen-set grows by exactly their number. |
| Detection.SeenChangesIffNew | main.py:191-198 | The seen-set changes iff some release is new, so persisting only then loses nothing. |
| Detection.DetectIsFirstSightings | main.py:188-194 | The new releases are the subsequence, in page order, of records whose key is unseen and did not occur earlier in the listing. |
| Detection.RunDetection | main.py:188-194 | The source's loop computes the first sightings of unseen keys and grows the seen-set by the listing's keys. |
| Detection.AllSeenIsNoOp | main.py:191-194 | If every key of the listing is already seen, nothing is new and the set is unchanged. |
| Detection.DetectIdempotent | main.py:187-194 | A second check of the same listing with the grown seen-set finds nothing and changes nothing. |
| Detection.SeenGrows | main.py:191-193 | The seen-set, and so its size, never shrinks. |
| Detection.FirstRunReportsAll | main.py:188-194 | From an empty seen-set, a listing with distinct keys is reported in full, in order. |
| Batching.Chunks | main.py:201-210 | The batches are non-empty and at most `size` long, and all but the last are exactly `size` long. |
| Batching.ChunksFlatten | main.py:201-210 | Read in order, the batches give back the input exactly: nothing is lost, repeated or reordered. |
| Batching.ChunkCount | main.py:201-202 | There are ceil(K / size) batches. |
| Batching.ChunkIsSlice | main.py:202-210 | Batch k is the source's slice `xs[k*size : k*size+size]`, with Python's clamping at the end. |
| Monitor.TruncateTitle | main.py:263-265 | Titles over 80 characters become their first 77 plus "...", exactly 80 long. Shorter titles are unchanged. The result never exceeds 80. |
| Monitor.TruncateTitleIdempotent | main.py:263-265 | Truncating a truncated title changes nothing. |
| Monitor.Render | main.py:210-215 | Each record gives one field in order, keeping chapter and group, with the title full (notifications) or truncated (listing). |
| Monitor.RenderBatchesFlatten | main.py:202-215 | Reading the messages in order gives every new release once, in order. |
| Monitor.MonitorCycle | main.py:186-222 | One cycle grows the seen-set by the served keys. The seen file is written iff something is new, iff the set changed. Memory and disk stay in step. The cache and its file are replaced exactly when the fetch parsed something, and `cacheSaved` says so. Otherwise the cache file is left alone. Messages hold 1 to 5 entries, every one but the last exactly 5, and together render the new releases in order. |
| Monitor.MonitorCycleReports | main.py:187-202 | A cycle reports the first sightings of unseen keys in the served listing, in ceil(n / 5) messages. |
| Monitor.SecondCycleIsQuiet | main.py:187-198 | A cycle that sees the same page again, or whose fetch fails, finds nothing, sends nothing and does not rewrite the seen file. |
| Monitor.PagesFromAt | main.py:250-256 | The page at position k shows the k-th batch and is labelled `start + 10k + 1` to `min(start + 10k + 10, total)`. |
| Monitor.PagesFromLabels | main.py:250-256 | Page labels read i+1 to min(i+10, total), count exactly the page's entries, and follow one another without gap. |
| Monitor.ListingPagesPartition | main.py:245-271 | The listing has ceil(n / 10) pages labelled from 1 to n without gap. Each has 1 to 10 entries, and together they show every record once, in order, with titles truncated. |
| Monitor.LatestRelease | main.py:241-277 | `.latestrelease` answers "no data" iff nothing can be served, which needs an empty cache. Otherwise it answers with the listing pages of the served records. It refreshes the cache and its file like the monitor, leaving the file alone when nothing was parsed. It never touches the seen-set, and keeps memory and disk in step. |
| Monitor.LatestReleaseShowsAll | main.py:244-271 | With data, the reply has ceil(n / 10) pages labelled from 1 to n, and shows every served record once, in order, with its title truncated. |
| Lookup.SeriesLink | main.py:393-394 | A browse link always starts with "http": absolute links are kept and relative ones get the site prefixed. |
| Lookup.SearchLink | main.py:316 | A search link is empty iff the href is empty, and otherwise absolute in the same way. |
| Lookup.LinksIdempotent | main.py:393-394 | Making a link absolute twice is the same as doing it once. |
| Lookup.InfoSnippet | main.py:317 | The info text is kept, cut to 200 characters, only when it is longer than the title. Otherwise it is empty. |
| Lookup.SearchResultOf | main.py:307-318 | A container gives a result iff its title element (the link if there is one, else the span) has text over 2 characters. The result is that text, the made-absolute link (empty for a span), and the info snippet. |
| Lookup.SearchResults | main.py:306-318 | At most 10 results, each with a title over 2 characters. With 10 containers or fewer, every container is looked at. |
| Lookup.SearchResultsIgnoresRest | main.py:306 | Containers after the tenth never change the results. |
| Lookup.CollectResultsAppend | main.py:306-318 | Results are gathered container by container, in page order. |
| Lookup.CollectResultsOne | main.py:307-318 | A single container contributes its own result, or nothing. |
| Lookup.SearchFields | main.py:330-336 | At most 8 fields, one per result in order. Each name is the title's first 100 characters. The value is the link, or "No link available" when the link is empty. |
| Lookup.DetailDescription | main.py:431 | Descriptions over 300 characters become their first 300 plus "..." (303 in all). Others are unchanged. |
| Lookup.ExtractSeries | main.py:388-398 | Browse links give series with titles over 2 characters and absolute URLs. There are never more series than links. |
| Lookup.ExtractSeriesAppend | main.py:388-398 | The series of consecutive runs of links are those of each run, in order. |
| Lookup.ExtractSeriesOne | main.py:389-398 | One link gives one series, its text and its made-absolute URL, exactly when the text is over 2 characters. |
| Lookup.FillSeriesList | main.py:400-416 | The retry loop makes at most 3 attempts. It makes none when the first page listed something, and at least one otherwise. It stops at the first attempt that yields series, which are then the list. A failed request aborts it, and can only come after attempts that all yielded nothing. If it does not abort, the list ends non-empty or all 3 attempts were used. |

## Left out

- Chat-platform glue: bot set-up, events, the welcome message, embed colours, emoji, footers and timestamps, and the abort when the release channel is missing (main.py:62-97, 176-183). Message text formatting is left out too: a field is kept as its three texts and a page label as its three numbers.
- HTTP requests, headers, timeouts and BeautifulSoup traversal, including the class-substring matching of containers and columns. The release-page fetch is an `Option` of already-extracted rows (main.py:106-129). Each `.randomseries` retry page is an `Option` of already-extracted links (main.py:402-414). The `.lookup` search page is a plain list of containers (main.py:290-304), and the first `.randomseries` browse page is a plain list of series (main.py:373-386).
- The failure paths of the two on-demand commands. A failed `.lookup` search request (main.py:296-297) answers with a fixed "view results directly" embed (main.py:349-358). A failed first `.randomseries` browse request (main.py:381-382) answers with a fixed "browse all Manhwa" embed (main.py:463-473). Both are message text only.
- JSON encoding and file I/O. The files are a `Disk` value, and a write always succeeds. An exception from a save, or from sending a message after the seen-set was updated, is not modelled (main.py:19-44, 218-225).
- The per-row `except` (main.py:151-153). With rows as plain data nothing in the row logic can raise, so that path is the same as dropping the row.
- `asyncio.sleep` pacing, the hourly loop and `bot.is_closed()`. A cycle is one call of `MonitorCycle` (main.py:185, 219, 228, 275).
- Randomness: the letter choices, the random pick and `random.sample` of up to five other series. Retry pages are an arbitrary function of the attempt number (main.py:374, 402, 421, 443-450).
- The detail-page fetch of `.randomseries` and its fixed fallback description. Only the truncation is modelled (main.py:423-434).
- URL building for search and browse, including the query's space-to-'+' replacement (main.py:291, 375, 403).
- The admin `testfetch` command, logging, dotenv token loading and the Flask keep-alive thread (main.py:49-60, 479-521).
