# Hacker News story ingestion and page enrichment, modelled in Dafny

The system has two parts. This project models the core of each:

- **The ingestion walk** (`scrape_hackernews.py`). It reads Hacker News item ids from a start id down to 2, in chunks of `chunk_size` ids.
  - Each id is fetched, and only stories with an external link are kept.
  - Each kept story becomes a row with a `website` host name.
  - After every chunk the walk saves a checkpoint. A restart resumes from that checkpoint.
- **The enrichment pass** (`pull_pages.py`). It selects every row of table `data` whose `title` or `text` is empty.
  - It downloads each selected row's page and overwrites that row's `title` and `text` with what `pull_page` returns.
  - `pull_page` returns `('', '')` on any failure.

Modules:

- `Wrappers`: an `Option` type.
- `StrSplit`: Python's `str.split` with a non-empty separator, `find`, `join`, and the laws that hold between them.
- `Stories`: the item filter and record builder `fetch_url`, and the filter over one chunk, `fetch_and_process_urls`.
- `Walk`: the start id, the chunk ranges, the checkpoints, the chunk estimate, the resume guarantee and the scraping loop itself.
- `Pages`: the table as a `map` from `url` to row, and a `Database` class whose `data` field is the table. The field is `None` while the table does not exist. The class's methods are `create_database`, the `SELECT url` query, the `UPDATE`, and the `update_database` loop. The `SELECT COUNT(*)` query is the expression `|UnenrichedUrls(t0)|` inside that loop method.

External effects are parameters:

- The HTTP request and JSON decoding of one id is a function `fetch: int -> Option<Item>`.
- `max_id` and the checkpoint file's contents are inputs of `Walk.Scrape`.
- The checkpoints saved, the chunks requested and the CSV rows written are its outputs.
- In `Pages`, the page download and HTML handling of one url is a function `fetch: string -> PageFetch`.

Behaviour of the code worth noting:

- **The checkpoint is the chunk's highest id.** `last_processed_id = chunk_ids[0]` (scrape_hackernews.py:83) is the first, and so the highest, id of the descending chunk.
  - A resume starts at `checkpoint - 1`, so it walks again up to `chunk_size - 1` ids that had already been processed (`Walk.ResumeAfterCheckpoint`).
  - The rows are appended to a CSV file without deduplication, so those stories are written again.
- **Enrichment commits row by row.** `update_database` commits after every `UPDATE` (pull_pages.py:47-48), not once per batch. Each loop turn of `Pages.Database.UpdateDatabase` leaves a consistent partial state.
- **A failed fetch can clear a title.** The `UPDATE` overwrites `title` and `text` together. A row that has a title but no text loses its title when its page cannot be fetched (`Pages.FailedFetchClearsTitle`).
  - `Pages.EnrichedReselects` shows that such a row is selected again on every later pass.
  - `Pages.EnrichedIdempotent` shows that, with the same pages, later passes change nothing.
- **The chunk estimate can be one too high.** The printed estimate `(start_id - 1) // chunk_size + 1` is an upper bound on the number of chunks. It is one too high when `start_id - 1` is a multiple of `chunk_size` (`Walk.ChunkCount`, `Walk.EstimateOvershoots`).

Python semantics that are written out:

- The truthiness test `if last_processed_id:` treats a checkpoint of `0` as absent.
- `//` is floor division. It agrees with Dafny's `/` for the positive chunk size.
- `range(hi, lo, -1)` is `Walk.Range`.
- `url.split("//")[1]` raises `IndexError` for a url without `//`. `fetch_url` catches it and yields nothing, as do request and decoding errors.

## Model

| member | source | states |
|---|---|---|
| Stories.IsLinkedStory | scrape_hackernews.py:26 | (definition) the filter's test: a truthy item of type "story" with a non-empty url |
| Stories.FetchUrl | scrape_hackernews.py:22 | (definition) `fetch_url` for one id: the request and decoding `fetch`, then `FetchStory` |
| Stories.Hit | scrape_hackernews.py:44-45 | (definition) the zero or one records one result contributes: `if result: yield result` |
| Stories.Yielded | scrape_hackernews.py:40-45 | (definition) the records a chunk yields: the non-None results of its ids, in id order |
| Walk.Range | scrape_hackernews.py:74 | (definition) `range(hi, lo, -1)`: hi, hi - 1, ..., lo + 1, empty when hi <= lo |
| Walk.ChunkIds | scrape_hackernews.py:74 | (definition) `range(current_id, max(1, current_id - chunk_size), -1)` |
| Walk.Walk | scrape_hackernews.py:73-91 | (definition) the chunks the `while current_id > 1` loop takes, stepping `current_id` down by `chunk_size` |
| Walk.Checkpoints | scrape_hackernews.py:83-91 | (definition) the `current_id` (that is, `chunk_ids[0]`) saved after each chunk of the walk |
| Walk.Concat | scrape_hackernews.py:73-79 | (definition) the ids of the chunks, laid end to end in walk order |
| Walk.TotalChunksEstimate | scrape_hackernews.py:71 | (definition) `(start_id - 1) // chunk_size + 1` |
| Pages.Unenriched | pull_pages.py:37 | (definition) the `WHERE title = '' OR text = ''` test on one row |
| Pages.UnenrichedUrls | pull_pages.py:42 | (definition) the keys `SELECT url FROM data WHERE title = '' OR text = ''` returns |
| Pages.WithPage | pull_pages.py:47 | (definition) a row after `SET title = ?, text = ?` |
| Pages.Overwritten | pull_pages.py:45-48 | (definition) the table once the rows of a set of keys have been overwritten with their pages |
| Pages.Enriched | pull_pages.py:42-48 | (definition) the table after a complete pass: every row of the snapshot overwritten with its page |
| StrSplit.Find | scrape_hackernews.py:31 | the result is the leftmost index where the separator occurs, or none when it occurs nowhere |
| StrSplit.Cut | scrape_hackernews.py:31 | the end of the first part of a split is at most the length, is an occurrence of the separator when inside the string, and has no occurrence before it |
| StrSplit.Split | scrape_hackernews.py:31 | a split always has at least one part |
| StrSplit.SplitFirst | scrape_hackernews.py:31 | the first part of a split is the text before the leftmost separator, or the whole string when there is none |
| StrSplit.SplitSpec | scrape_hackernews.py:31 | the parts joined with the separator give back the string; no part contains the separator; there are two or more parts exactly when the separator occurs |
| StrSplit.BeforeFirstIsFree | scrape_hackernews.py:31 | the text before the leftmost occurrence contains no occurrence |
| Stories.Website | scrape_hackernews.py:31 | the host expression fails (no second part) exactly when the url has no "//" |
| Stories.SecondPart | scrape_hackernews.py:31 | when the separator occurs, `split(sep)[1]` exists and is the first part of the split of what follows its leftmost occurrence |
| Stories.HostOfRest | scrape_hackernews.py:31 | the first "/"-part of the text after "//" is a slash-free prefix of it ending at a "/" or the end |
| Stories.WebsiteOfRest | scrape_hackernews.py:31 | the website is computed from the text after the leftmost "//" |
| Stories.WebsiteHost | scrape_hackernews.py:31 | the computed website is the slash-free text after the leftmost "//" up to the next "/" or the end |
| Stories.HostAtIntro | scrape_hackernews.py:31 | the host facts stated on the text after "//" give the host of the whole url |
| Stories.SlashAt | scrape_hackernews.py:31 | splitting at "/" cuts exactly at the slash characters |
| Stories.HostAtUnique | scrape_hackernews.py:31 | a url has at most one host: the leftmost "//" and the following "/" determine it |
| Stories.WebsiteIsHost | scrape_hackernews.py:31 | the website is some host exactly when that host follows the leftmost "//" of the url up to the next "/" or the end (both directions) |
| Stories.FetchStory | scrape_hackernews.py:22-38 | a record is produced exactly when the item is present, has type "story", a non-empty url containing "//"; it then carries the url, title and text defaulting to "", the time as given and an empty label |
| Stories.RecordWebsiteIsHost | scrape_hackernews.py:27-34 | the website of every produced record is the host of its url |
| Stories.ExampleWebsite | scrape_hackernews.py:31 | the website of "https://example.com/a" is "example.com" |
| Stories.ExampleStory | scrape_hackernews.py:22-38 | a story with url "https://example.com/a", title "Hi" and no text becomes a record with website "example.com" and text "" |
| Stories.YieldedAppend | scrape_hackernews.py:40-45 | the records yielded for two id lists laid end to end are those of each list, in turn |
| Stories.YieldedMember | scrape_hackernews.py:43-45 | a record is yielded exactly when some id of the chunk produces it |
| Stories.MultisetRemove | scrape_hackernews.py:42 | taking the id at position k out of a list removes exactly one copy of it from the multiset |
| Stories.YieldedRemove | scrape_hackernews.py:42-45 | the records yielded for a list are, as a multiset, those of its id at k together with those of the other ids |
| Stories.YieldedOrderFree | scrape_hackernews.py:42 | the order in which the fetches complete changes neither which records are yielded nor how often |
| Stories.FetchAndProcess | scrape_hackernews.py:40-45 | the output is exactly the results of `fetch_url` that are not None, taken in id order (`Yielded`), and it is never longer than the chunk |
| Walk.RangeMember | scrape_hackernews.py:74 | `range(hi, lo, -1)` contains exactly the ids in (lo, hi] |
| Walk.RangeSplit | scrape_hackernews.py:74 | adjacent descending ranges concatenate to one |
| Walk.StartId | scrape_hackernews.py:53-57 | a truthy checkpoint c gives start c - 1; an absent checkpoint or one equal to 0 gives max_id - 1 |
| Walk.ChunkShape | scrape_hackernews.py:73-74 | each chunk taken while `current_id > 1` is non-empty, at most `chunk_size` long, starts at `current_id`, descends by one, and ends at max(2, current_id - chunk_size + 1) |
| Walk.ConcatAppend | scrape_hackernews.py:73-91 | the ids of chunks laid end to end are those of each group, in turn |
| Walk.WalkCovers | scrape_hackernews.py:73-91 | the chunks walked from a start id cover every id from it down to 2, each once, in descending order |
| Walk.WalkChunkAt | scrape_hackernews.py:73-91 | chunk j of the walk is the chunk taken at current_id = start - j * chunk_size, which is still above 1 |
| Walk.CheckpointAt | scrape_hackernews.py:83-84 | one checkpoint is saved per chunk, and checkpoint j is the first (highest) id of chunk j, start - j * chunk_size |
| Walk.CheckpointsDescend | scrape_hackernews.py:83-91 | each saved checkpoint is exactly chunk_size below the one before |
| Walk.CheckpointsLength | scrape_hackernews.py:83-91 | there are as many checkpoints as chunks |
| Walk.WalkLength | scrape_hackernews.py:73-91 | the number of chunks n is the least n with start - n * chunk_size <= 1 |
| Walk.DivUnique | scrape_hackernews.py:71 | floor division is the unique quotient q with q * b <= a < (q + 1) * b |
| Walk.ChunkCount | scrape_hackernews.py:71 | a walk from s > 1 takes (s - 2) // size + 1 chunks, and the printed estimate is an upper bound for every s >= 0 |
| Walk.EstimateOvershoots | scrape_hackernews.py:71 | from start id 1001 with chunk size 1000 the walk takes one chunk while the estimate says two |
| Walk.WalkPrefix | scrape_hackernews.py:73-91 | the first k chunks cover exactly the ids from the start down to max(1, start - k * size) + 1 |
| Walk.ResumeAfterCheckpoint | scrape_hackernews.py:53-54 | after chunk k saves checkpoint c, a resume from c covers every id not yet covered, walks no id outside the original walk, and walks again exactly the completed ids below c, at most size - 1 of them |
| Walk.ResumeRanges | scrape_hackernews.py:53-54 | the interval facts behind a resume: what is left is inside the resumed range, and the overlap is (lo, c - 1] |
| Walk.WalkStep | scrape_hackernews.py:73-91 | one loop turn moves the chunk at current_id, with its checkpoint `chunk_ids[0]`, from the walk ahead to the walk done |
| Walk.RowsStep | scrape_hackernews.py:78-79 | the rows written grow by those of the new chunk |
| Walk.WalkFrom | scrape_hackernews.py:68-91 | the loop requests exactly the chunks of the walk, saves one checkpoint per chunk (its highest id), counts the chunks, covers every id from the start down to 2, and writes exactly the records those ids produce, in walk order |
| Walk.Scrape | scrape_hackernews.py:50-91 | the same facts for the start id chosen from the checkpoint or max_id; the estimate returned is `(start_id - 1) // chunk_size + 1`, and it bounds the chunk count |
| Pages.PullPage | pull_pages.py:9-18 | every failure of the request or the parsing yields ('', '') |
| Pages.EnrichedFrame | pull_pages.py:42-48 | a pass keeps the key set and every website, time and label; it leaves rows that were not selected unchanged, and every selected row holds exactly (title, text) = pull_page(url) |
| Pages.EnrichedReselects | pull_pages.py:37-48 | after a pass the selected rows are exactly the previously selected rows whose page gave an empty title or text, in particular every failed fetch |
| Pages.EnrichedIdempotent | pull_pages.py:42-48 | with the same pages, a second pass leaves the table as the first left it |
| Pages.FailedFetchClearsTitle | pull_pages.py:46-47 | a row with title "Hi" and empty text has an empty title after a pass in which its fetch fails |
| Pages.OverwrittenNone | pull_pages.py:45-48 | before the first update the table is untouched |
| Pages.OverwrittenStep | pull_pages.py:45-48 | one more `UPDATE` of a row not yet done extends the set of done rows by its key |
| Pages.Database.constructor | pull_pages.py:21 | opens a database whose table is the given one, or absent |
| Pages.Database.CreateDatabase | pull_pages.py:20-32 | an existing table is left as it is; an absent one is created empty |
| Pages.Database.SelectUnenriched | pull_pages.py:42-43 | returns every url whose row has an empty title or text, each exactly once, and no other |
| Pages.Database.UpdateRow | pull_pages.py:47 | sets title and text of the row with that url, and changes nothing when no row has it |
| Pages.Database.UpdateDatabase | pull_pages.py:34-52 | without a table nothing changes and ok is false; otherwise the table becomes the enriched table, the urls visited are exactly the selected ones, each once, and the row count equals the progress count and the number visited |

## Left out

- HTTP requests, timeouts, JSON decoding, BeautifulSoup and markdownify are outside the model. They are the `fetch` parameters; the model starts from a decoded item or a parsed page.
- A JSON payload that is not an object, a JSON `null`, and any request or decoding error are all the one value `None`. The source treats them all alike and yields nothing.
- A key that is present with the value `null`: `item.get("title", "")` then returns `None`, not `""`. The model has only a present string or an absent key.
- The thread pool (`max_workers=2`) and `as_completed` are not modelled.
  - Stories.FetchAndProcess: collects the results in id order, where the source yields them in completion order. The contracts of `Walk.WalkFrom` and `Walk.Scrape` inherit that order.
  - `Stories.YieldedOrderFree` shows that any completion order yields the same multiset of records.
  - `Stories.YieldedMember` states which records are yielded.
- Walk.WalkFrom: the rows are stated for the full run only. A crash between a chunk's CSV writes and its checkpoint write is covered by `Walk.ResumeAfterCheckpoint` on the id level, not as file contents.
- The checkpoint file is not modelled. `load_last_processed_id` is the `checkpoint` input of `Walk.Scrape`: `None` when the file is missing. A file whose contents `int()` cannot parse makes the program raise, and that case is not modelled.
- The CSV file is not modelled beyond the rows written. That leaves out its open mode (`'a'` on resume, `'w'` otherwise), its header and its flushing.
- `tqdm` progress bars, `print` and `time.sleep` are not modelled.
- `max_id` is read on every run but not used on resume. The model has the same behaviour: `Walk.StartId` ignores it when the checkpoint is truthy.
- The chunk size is a parameter of `Walk`. The source fixes it at 1000.
- sqlite details are not modelled: connections, cursors, the column types and `NULL` values. A `NULL` title or text does not match `= ''`, and every column in the model is a string.
- Pages.Database.UpdateDatabase: an exception raised inside the loop is not modelled, only the missing table. `pull_page` catches its own exceptions, so such an exception can only come from sqlite itself.
- The `__main__` block of pull_pages.py is not modelled. It calls `create_database(db_path, input_csv)` with a name that is never defined. No CSV-to-database import exists in the source.
