# Quotes API — a Dafny model of the import parser and the `/quotes` endpoints

The quotes API serves quotes from one table, `quotes`, through a small REST
interface. Data enters through a one-off import script (`main.py`) that
reads a text file of lines `"<number>. <content> – <author>"` and adds one
row per line. Clients then read the table through `/quotes` endpoints
(`src/routers/quotes.py`): a paginated listing, a lookup by id, a lookup of
a randomly drawn id, adding one quote, and adding a batch.

This project models those two pieces and proves what they do:

- `pystr.dfy`, module `PyStr`: the Python string operations the import
  relies on (`str.find`, `str.split(sep)`, `s[start:]`, the empty-string
  filter), with their characterising lemmas: a split joins back to its
  input, no piece contains the separator, and splitting on `'\n'` and
  filtering empty lines distribute over concatenation (which is what keeps
  records in file order).
- `models.dfy`, module `Models`: the `Quote` row and the `NewQuote` payload
  (`src/models.py`), the well-formedness of the table (positive, strictly
  increasing, hence unique ids), and the `QuoteStore` class standing in for
  the database session: `Insert` is `add`, `commit`, `refresh`; `InsertAll`
  is the one-row-at-a-time loop.
- `quotes_router.dfy`, module `QuotesRouter`: the endpoint logic over the
  store's rows.
- `import_job.dfy`, module `ImportJob`: the parsing pipeline of `main.py`
  and the import method that appends the parsed rows.

Reading the file, the random draw and the separator are parameters: the
text of the file is a `string`, the id drawn by `random.randint(1, 1000)`
is an argument, and the separator is an argument because the literal in
`main.py:18` is `" â€“ "`, the Windows-1252 reading of an en-dash's UTF-8
bytes (see Findings). A line without the separator makes Python raise
`IndexError` when `stripe_nums` reads `item[1]`; the model returns
`IndexError(k)` for the first such non-empty line `k`. Because
`list(map(stripe_nums, ...))` is evaluated before the first `db.add`, that
error leaves the table untouched.

The listing has `limit` and `offset` as optional integers. A request that
leaves them out gets the `Query` defaults, 100 and 0; `None` reaches the
handler only when it is called directly from Python, and the model keeps
that case because the code handles it. The code branches four ways on their
Python truthiness (`None` and `0` are false). The model
keeps all four branches and proves they all amount to "skip `offset` rows,
then take at most `limit`". The query bounds (`0 < limit < 100000`,
`0 <= offset < 10000000`) are preconditions, as the framework rejects
anything else before the handler runs.

## Model

| member | source | states |
|---|---|---|
| `PyStr.Find` | main.py:9 | `find` returns -1 exactly when the text does not contain the needle, and otherwise an index where it occurs with no earlier occurrence |
| `PyStr.IndexOfFirst` | main.py:18 | the scan that `split` uses finds nothing exactly when the separator does not occur, and otherwise an occurrence with no earlier one |
| `PyStr.Split` | main.py:16-18 | `split(sep)` always gives at least one piece, the first a prefix of the string; `JoinSplit`, `SplitPiecesFree` and `SplitLeftmost` together fix every piece, also for a separator that overlaps itself |
| `PyStr.SplitLeftmost` | main.py:16-18 | each piece but the last is cut at the leftmost occurrence after it: the piece followed by all but the last character of the separator contains no separator, so no earlier cut was possible |
| `PyStr.NonEmpty` | main.py:17 | the filtered lines are all non-empty, and a string survives exactly when it is a non-empty line of the input |
| `PyStr.NonEmptyAppend` | main.py:17 | filtering empty lines distributes over concatenation, so surviving lines keep their order |
| `PyStr.JoinSplit` | main.py:18 | joining the pieces of `split(sep)` with `sep` gives back the line |
| `PyStr.SplitPiecesFree` | main.py:18 | no piece of `split(sep)` contains the separator |
| `PyStr.SplitMany` | main.py:10 | a line splits into at least two pieces (so `item[1]` exists) exactly when it contains the separator |
| `PyStr.SplitConcat` | main.py:16 | `split('\n')` of `a + "\n" + b` is the lines of `a` followed by the lines of `b` |
| `PyStr.SplitFirstTwo` | main.py:18 | the first piece runs up to the first separator; the line is the first piece, the separator, the second piece, and then nothing or the separator and the rest |
| `PyStr.SplitInTwo` | main.py:18 | a piece, the separator and a piece, with no earlier occurrence possible, split into exactly those two pieces |
| `PyStr.SplitWhole` | main.py:16 | text lacking a character of the separator is a single piece |
| `Models.StampedAt` | src/models.py:9 | row k of a stamped batch is payload k with id `first + k`: one row per payload, in order, with consecutive ids |
| `Models.StampedWellFormed` | src/models.py:9 | appending freshly stamped rows keeps ids positive, strictly increasing and below the next id |
| `Models.QuoteStore.Insert` | src/routers/quotes.py:79-83 | `add`, `commit`, `refresh`: the table gains exactly one row at the end, carrying the next id; earlier rows unchanged; table stays well formed |
| `Models.QuoteStore.InsertAll` | main.py:20-30 | adding the rows one by one appends exactly one stamped row per payload, in order, and nothing else |
| `QuotesRouter.Limit` | src/routers/quotes.py:39 | `.limit(n)` keeps a prefix of the rows of length `n`, or all rows when there are fewer |
| `QuotesRouter.Offset` | src/routers/quotes.py:42 | `.offset(n)` keeps the rows after the first `n`, in order, and none when there are at most `n` |
| `QuotesRouter.PageSize` | src/routers/quotes.py:33-34 | the size of a page is at most the number of rows and at most a truthy `limit` |
| `QuotesRouter.GetQuotes` | src/routers/quotes.py:31-51 | every branch returns the rows with `offset` skipped and at most `limit` kept: the k-th result is row `offset + k`; `count` is the number of rows returned |
| `QuotesRouter.GetQuotesIsWindow` | src/routers/quotes.py:38-48 | when `offset` is within the table the listing is its contiguous slice from `offset` of `PageSize` rows, and when it is past the end the listing is empty |
| `QuotesRouter.DefaultRequest` | src/routers/quotes.py:33-39 | a request without `limit` and `offset` gets the defaults 100 and 0 and lists the first 100 rows, or all when there are fewer |
| `QuotesRouter.ZeroOffsetIsNoOffset` | src/routers/quotes.py:38-39 | `offset = 0` is falsy and lists exactly what no offset lists |
| `QuotesRouter.SortIgnored` | src/routers/quotes.py:35-48 | `sort_by` and `descending` have no effect on the listing |
| `QuotesRouter.GetQuoteById` | src/routers/quotes.py:66-71 | the result is a row of the table with the requested id, and nothing exactly when no row has that id |
| `QuotesRouter.GetQuoteByIdFinds` | src/routers/quotes.py:69 | in a well-formed table every row is what a lookup of its own id returns |
| `QuotesRouter.GetQuoteByIdAppend` | src/routers/quotes.py:69 | a lookup over two stretches of rows answers from the first stretch when it can, otherwise from the second |
| `QuotesRouter.GetRandomQuote` | src/routers/quotes.py:20-28 | for a draw in [1, 1000], the result is a row with that id, or nothing exactly when no row has it |
| `QuotesRouter.GetRandomQuoteDense` | src/routers/quotes.py:24-26 | in a table with ids 1..n, a draw finds a row exactly when it is at most n |
| `QuotesRouter.AddQuote` | src/routers/quotes.py:74-85 | the table grows by exactly one row carrying the payload's content, author and language and the next id; earlier rows unchanged |
| `QuotesRouter.AddThenGet` | src/routers/quotes.py:77-83 | after adding a row it is found by its id, and every other lookup answers as before |
| `QuotesRouter.AddQuotes` | src/routers/quotes.py:88-104 | as written: one returned record per payload in payload order, `count` equal to the number of payloads, and no change to the table |
| `QuotesRouter.BatchNotPersisted` | src/routers/quotes.py:96-104 | a batch of one quote sent to an empty table reports count 1 while the table stays empty |
| `QuotesRouter.AddQuotesEager` | src/routers/quotes.py:91-104 | as intended: the table gains one row per payload, in order, with consecutive fresh ids, and those rows are returned with their count |
| `QuotesRouter.AddBatchThenGet` | src/routers/quotes.py:91-104 | after the intended batch insert, every payload is found under the id it was given |
| `ImportJob.StripOrdinal` | main.py:7-10 | `text[text.find('.') + 2:]` is a suffix of the text, strictly shorter when the text is non-empty |
| `ImportJob.StripOrdinalAfterDot` | main.py:9 | with its first '.' at index i, the content is everything from i + 2 on (empty if that is past the end) |
| `ImportJob.StripOrdinalNumbered` | main.py:9 | "<num>. <content>" with no '.' in `num` strips to exactly `content` |
| `ImportJob.StripOrdinalNoDot` | main.py:9 | with no '.', `find` gives -1 and only the first character is dropped |
| `ImportJob.ParseLine` | main.py:7-10 | one line: a record with language "en" when the split has a second piece; `ParseLineDefined` says that happens exactly when the line contains the separator, and `ParseLineFields` which pieces become content and author |
| `ImportJob.ParseLineDefined` | main.py:18-24 | a line yields a record exactly when it contains the separator, and the record's author contains no separator |
| `ImportJob.ParseLineFields` | main.py:7-19 | the content is the stripped piece before the first separator; the author is the second piece, which runs to the next leftmost separator when there is one (no separator completes inside the author and the next separator's leading characters); anything after that is discarded |
| `ImportJob.ParseEach` | main.py:18-19 | `map(stripe_nums, ...)`: one result per line, result k being the parse of line k (`ParseLinesRecords`), kept in order across concatenation (`ParseEachAppend`) |
| `ImportJob.Collect` | main.py:19 | `list(...)` over the per-line results: one record per line when every line gave one, otherwise the `IndexError` of the first line that did not (`CollectSucceeds`, `CollectRecords`, `CollectFirstError`) |
| `ImportJob.CollectSucceeds` | main.py:19 | collecting succeeds exactly when every per-line result is a record |
| `ImportJob.CollectRecords` | main.py:19 | on success, record k is the result of line k |
| `ImportJob.CollectFirstError` | main.py:10 | on failure, the reported line gave no record and every earlier line did |
| `ImportJob.ParseLines` | main.py:19 | a successful parse has one record per line; a failure names a line that exists |
| `ImportJob.ParseLinesSucceeds` | main.py:18-19 | parsing succeeds exactly when every line contains the separator |
| `ImportJob.ParseLinesRecords` | main.py:18-19 | on success, record k is the parse of line k, so records keep line order |
| `ImportJob.ParseLinesFirstError` | main.py:18-19 | on failure, the reported line lacks the separator and every earlier line has it |
| `ImportJob.Lines` | main.py:16-17 | the lines kept are the non-empty pieces of `split('\n')` |
| `ImportJob.ParseFile` | main.py:15-24 | on success, one record per non-empty line, each with language "en" |
| `ImportJob.ParseEachAppend` | main.py:18-19 | parsing the lines of `a + b` one by one is parsing those of `a`, then those of `b` |
| `ImportJob.ParseLinesAppend` | main.py:18-19 | parsing two runs of lines gives the first run's records followed by the second's, or the first error, positioned across both runs |
| `ImportJob.LinesConcat` | main.py:16-17 | the lines of `a + "\n" + b` are the lines of `a` followed by those of `b` |
| `ImportJob.ParseFileConcat` | main.py:16-20 | the records of a file are the records of its first part followed by those of the rest |
| `ImportJob.BlankLineIgnored` | main.py:17 | inserting an empty line anywhere changes nothing: empty lines never produce a record |
| `ImportJob.SingleLineParses` | main.py:16-25 | a one-line file "<head><sep><author>" gives exactly one record with the stripped head as content, the author, and language "en" |
| `ImportJob.SampleLineParses` | main.py:16-25 | "12. To be or not to be – Shakespeare" with an en-dash separator gives content "To be or not to be", author "Shakespeare", language "en" |
| `ImportJob.OverlappingSeparatorSplit` | main.py:18 | the separator `" – "` overlaps itself, and `split` takes the leftmost occurrence: "a – – b" splits into "a" and "– b" |
| `ImportJob.SampleLineRejectedBySourceSeparator` | main.py:18 | with the separator literal as written, that same line has no second piece and the import stops at line 0 |
| `ImportJob.ImportQuotes` | main.py:6-30 | the result is the parse of the text; on success the table gains exactly one stamped row per record, in file order, and the next id advances by their number; on error it is unchanged |

## Left out

- Opening and reading the file (main.py:14-15) and obtaining the session (main.py:12): I/O; the text is a parameter.
- The database itself: SQLAlchemy sessions, `commit`, `refresh` and transactions are modelled as the in-memory `QuoteStore`, whose `Insert` assigns the next id and appends; the server-side `now()` default of `created_at` is omitted from `Quote`.
- Row order: the source's queries have no `ORDER BY`; the model takes the table's order to be insertion order.
- `random.randint(1, 1000)`: randomness; the drawn id is a parameter of `GetRandomQuote`.
- FastAPI routing, `Depends`, the API-key check (`authorize_client`) and `RateLimiter`: framework and external-cache plumbing (`src/api_key.py`, `fastapi_limiter`) whose code lies outside the modelled files. Only the `Query` bounds on `limit` and `offset` appear, as preconditions of `GetQuotes`.
- `search_quotes` (src/routers/quotes.py:54-63): it only prints `language` and returns nothing, so there is no logic to model.
- src/config.py and the Redis startup in src/main.py: configuration loading and external services.
- The request and response schemas: src/schemas/quote.py is not part of this model. Payloads are `NewQuote` values with `language` as a string; validation of payloads and serialization of responses (including what a `None` from a lookup becomes) are not modelled.
- Sorting: `SortBy` is declared only as the ignored parameter of `GetQuotes`, as in the code.
- The access counter ("popularity") and not-found errors: they are not in the code.
- `PyStr.Split`: requires a non-empty separator; Python raises `ValueError` for an empty one, which the script never passes.
- `QuotesRouter.AddQuotes`: returns the payloads as the transient records; it does not model the ids and timestamps those unsaved objects lack, nor how the response model treats them.

## Findings

| source | as written | input that shows it | evidently intended | confidence | as-written member | corrected member |
|---|---|---|---|---|---|---|
| src/routers/quotes.py:97-101 | `map(db.add, db_quotes)` and `map(db.refresh, db_quotes)` build lazy iterators that are never consumed, so no row is added, yet the response reports `count = len(payloads)` | one payload sent to an empty table: the response has count 1, the table stays empty | every payload is added, committed and refreshed, and the response lists the stored rows | high (Python 3 `map` is lazy); not executed | `QuotesRouter.BatchNotPersisted` | `QuotesRouter.AddQuotesEager` |
| main.py:18 | the separator is `" â€“ "`, the Windows-1252 reading of an en-dash's UTF-8 bytes, while the file is opened as UTF-8 | the line "12. To be or not to be – Shakespeare", in the format the import expects, has no `" â€“ "`, so `item[1]` raises `IndexError` on the first line | split on `" – "` (an en-dash between spaces) | low (holds unless the data file itself stores the mis-decoded characters); not executed | `ImportJob.SampleLineRejectedBySourceSeparator` | `ImportJob.SampleLineParses` |
