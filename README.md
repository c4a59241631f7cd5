# Goszakup lot collection and suspicion scoring, modelled in Dafny

The system collects public procurement lots from the Kazakh portal goszakup.gov.kz
and scores them for suspicion with an ensemble of models. This project models its
deterministic core:

- **the lot-table scraper** (`parsebot/parse_goszakup.py`): the text-cleaning
  helpers, the split of a lot-number cell, the customer regex, and the row loop.
  The row loop turns the rows of the `search-result` HTML table into lot records.
  `main`'s URL and its `None` → `[]` rule are modelled too. Module `ParseBot`.
- **the paged API collector** (`analyze_the_lots/parse_goszakup.py`):
  - `parse_lots`' handling of a response, failures included.
  - `main`'s page loop, which stops at the first empty page or at the page cap.
  - `save_lots`, which appends to a CSV file and writes the header only when the
    file is new. It is a class with the file's state as fields.

  Module `Pagination`.
- **the scoring endpoint's own rules** (`main.py`):
  - `parse_amount` and `parse_quantity` on every kind of JSON value.
  - The three suspicion tiers.
  - The one-result-per-row loop over the predictions.
  - The requirement that all four model files and the scaler file are present before
    anything is predicted.

  Module `Scoring`.

Three support modules model the Python built-ins these files rely on:

- `Wrappers`: `Option` and `Result`.
- `PyStrings`:
  - `str.isspace`, following the table of Unicode whitespace that `str.strip()`
    and the regex `\s` share.
  - `strip`, `split` and `join` on one character.
  - `replace`, `in`, `find`, and `str()` of an integer.
- `PyFloat`:
  - `float()` on the decimal literals it accepts: an optional sign, digits with
    at most one point, and at least one digit.
  - The whitespace around the literal that `float()` ignores has its own set. It
    is the ASCII space, `\t`, `\n`, `\v`, `\f` and `\r`, plus every non-ASCII
    character `str.isspace()` accepts. Unlike `str.strip()`, it keeps U+001C..U+001F.
  - The value is an exact `real`. `None` stands where Python raises `ValueError`.

## Model

| member | source | states |
|---|---|---|
| ParseBot.NonBlankLines | parsebot/parse_goszakup.py:9 | The kept lines are no more than the input lines, and every kept line is stripped and not blank. |
| ParseBot.CleanTextEmptyIff | parsebot/parse_goszakup.py:7-9 | `clean_text` returns "" exactly when the text is all whitespace, the empty text included. |
| ParseBot.CleanTextShape | parsebot/parse_goszakup.py:7-9 | Every line of non-empty output is non-empty and is its own `strip()`. |
| ParseBot.CleanTextSplit | parsebot/parse_goszakup.py:9 | Splitting non-empty output on newlines gives back exactly the stripped non-blank lines of the input, in order. |
| ParseBot.CleanTextIdempotent | parsebot/parse_goszakup.py:7-9 | Cleaning twice gives the same result as cleaning once. |
| ParseBot.CleanTextStrip | parsebot/parse_goszakup.py:9 | Stripping the text before cleaning it changes nothing. |
| ParseBot.TextLinesNoNewline | parsebot/parse_goszakup.py:9 | No kept line contains a newline. |
| ParseBot.CleanSubjectIsCleanReplace | parsebot/parse_goszakup.py:17-18 | `clean_subject` is `clean_text` of the text with every "История" removed. The extra `strip()` adds nothing. |
| ParseBot.CleanSubjectWithoutLabel | parsebot/parse_goszakup.py:17-18 | Text without "История" is cleaned like any other text. |
| ParseBot.FirstMarkerMatch | parsebot/parse_goszakup.py:12 | A match found ends just after an occurrence of the marker. From that point, the stripped rest of the text is a single line, as the pattern's lookahead demands. |
| ParseBot.FirstMarkerMatchLeftmost | parsebot/parse_goszakup.py:12 | Like `re.search`'s match, the one found is the leftmost: no earlier occurrence of the marker can match. |
| ParseBot.ExtractCustomer | parsebot/parse_goszakup.py:11-15 | The customer is always one stripped line without a newline, or "". |
| ParseBot.ExtractCustomerNoMarker | parsebot/parse_goszakup.py:13-15 | Text without "Заказчик:" has no customer (""). |
| ParseBot.ExtractCustomerRest | parsebot/parse_goszakup.py:12-14 | When the leftmost usable marker ends at `j`, the customer is the stripped text after `j`. |
| ParseBot.AnnouncementBody | parsebot/parse_goszakup.py:65 | The announcement is the stripped text before the first "Заказчик:", or the whole stripped text when the marker is absent. |
| ParseBot.ParseLotNumberLines | parsebot/parse_goszakup.py:20-28 | `lot_id`, `lot_name` and `lot_status` are the first three lines of `clean_text(lot_text)`, "" where a line is missing. `additional_info` is every line after the third. |
| ParseBot.ParseLotNumberRejoins | parsebot/parse_goszakup.py:20-28 | Joining the non-empty fields and the additional lines with newlines gives back `clean_text(lot_text)`, so no line is lost or reordered. |
| ParseBot.ParseLotNumberEmptyId | parsebot/parse_goszakup.py:21-23 | `lot_id` is "" exactly when the cell text is all whitespace. |
| ParseBot.RowToLotFields | parsebot/parse_goszakup.py:55-83 | Each field of a row's record is stated in terms of the cells. `announcement` and `customer` come from lines 2 and 3 of cell 0. `status` is "" when there are only six cells, and `clean_text` of cell 6 otherwise. |
| ParseBot.RowToLotIgnoresCell1 | parsebot/parse_goszakup.py:64-83 | The announcement and customer computed from cell 1 never reach the record: replacing cell 1 does not change it. |
| ParseBot.Extracted | parsebot/parse_goszakup.py:52-55 | A run of rows gives at most one record per row. |
| ParseBot.ExtractedConcat | parsebot/parse_goszakup.py:52-83 | The records of two runs of rows are the records of the first run, then those of the second: row order is kept. |
| ParseBot.ExtractedAt | parsebot/parse_goszakup.py:52-83 | A row with six or more cells contributes its own record at the position set by the earlier rows that have six or more cells. |
| ParseBot.HeaderNeverEmitted | parsebot/parse_goszakup.py:49-52 | Whatever the first table row holds, it never yields a record. |
| ParseBot.ParseGoszakup | parsebot/parse_goszakup.py:43-94 | The result is `None` on a request failure or when the page lacks the table. Otherwise it is the records of the data rows, in order. |
| ParseBot.QueryUrlInjective | parsebot/parse_goszakup.py:102-109 | Different (page, count_record) pairs give different request URLs. |
| ParseBot.DefaultQueryUrl | parsebot/parse_goszakup.py:100-109 | `main()` with its default arguments requests `?count_record=2000&page=1`. |
| ParseBot.ScrapePage | parsebot/parse_goszakup.py:100-119 | `main` requests the URL for (page, count_record). It returns the page's records, or `[]` where `parse_goszakup` gives `None`. |
| Pagination.ParseLots | analyze_the_lots/parse_goszakup.py:20-28 | A failed call gives `([], 0)`. A missing `items` key gives no lots. Otherwise the lots are the `items` as given. |
| Pagination.PageLots | analyze_the_lots/parse_goszakup.py:45 | Only pages that the API actually answered can have lots. |
| Pagination.NonEmptyRun | analyze_the_lots/parse_goszakup.py:44-47 | The run length counts consecutive non-empty pages, and the page right after them is empty. |
| Pagination.Crawl | analyze_the_lots/parse_goszakup.py:39-59 | The loop returns the lots `CollectFrom` specifies, and it requests exactly the pages `Fetched` lists. |
| Pagination.FetchedConsecutive | analyze_the_lots/parse_goszakup.py:45-58 | The requested pages are `page, page+1, …`, with at least one request. |
| Pagination.CollectIsFetchedPages | analyze_the_lots/parse_goszakup.py:46-52 | The result is the lots of the requested pages, in request order. |
| Pagination.CapBoundsFetches | analyze_the_lots/parse_goszakup.py:55-56 | With a truthy `max_pages` `m`, no page after `max(start, m)` is requested. When `start >= m`, exactly one page is requested. |
| Pagination.DefaultCapSingleFetch | analyze_the_lots/parse_goszakup.py:55-56 | With `start_page = max_pages = 1`, exactly one request is made, even when page 1 has lots. |
| Pagination.UncappedFetches | analyze_the_lots/parse_goszakup.py:44-58 | With no cap (`None` or `0`), the requests run over the non-empty pages and stop at the first empty page, which is requested too. |
| Pagination.UncappedCollectsRun | analyze_the_lots/parse_goszakup.py:44-58 | With no cap, the result is the lots of the non-empty pages before the first empty one, concatenated in page order. |
| Pagination.EmptyPageEndsRun | analyze_the_lots/parse_goszakup.py:46-47 | An empty page ends the run: no later page is requested, and what later pages hold cannot change the result. |
| Pagination.FailureStopsRun | analyze_the_lots/parse_goszakup.py:26-28 | A failed call counts as an empty page: the run stops there and adds nothing. |
| Pagination.RecordsOfRecordLines | analyze_the_lots/parse_goszakup.py:32-33 | Reading back the CSV lines written for a list of lots gives the same lots. |
| Pagination.AppendRecords | analyze_the_lots/parse_goszakup.py:33 | An append adds exactly the new lots after the stored ones. |
| Pagination.AppendKeepsHeaderFirst | analyze_the_lots/parse_goszakup.py:33 | Because the header is written only into a new file, every line after the first is a record. |
| Pagination.CsvStore.constructor | analyze_the_lots/parse_goszakup.py:33 | The store starts with no file. |
| Pagination.CsvStore.SaveLots | analyze_the_lots/parse_goszakup.py:30-34 | Appends the lots, with a header first only when the file did not exist. The file then exists, the store stays well-formed, and its rows grow by exactly the lots. |
| Pagination.Run | analyze_the_lots/parse_goszakup.py:39-65 | `main` returns the crawl's lots. It appends them once when there are any, and leaves the store untouched otherwise. |
| Scoring.ParseAmount | main.py:42-50 | The reader raises exactly on an `int` of magnitude `2^1024 - 2^970` or more, which `float()` cannot round into a double (`OverflowError`, which the `except` does not catch). Every other value reads as a number. |
| Scoring.ParseAmountNonString | main.py:42-50 | `None` and a list or object (`float()` raises `TypeError`) read as `0.0`. A bool reads as `1.0` or `0.0`, an int in the double range as its value, and a float as itself. Together with `ParseQuantityIsParseAmount`, this holds for `parse_quantity` too. |
| Scoring.ParseAmountString | main.py:42-50 | A string reads as `v` in two cases: once spaces are removed and commas made points, it spells a decimal literal of value `v`; or it spells none and `v` is the fallback `0.0`. |
| Scoring.ParseAmountNone | main.py:43-44 | `None` reads as `0.0`. |
| Scoring.ParseAmountIntText | main.py:45-48 | The decimal rendering of any integer reads back as that integer, negative ones included. |
| Scoring.ParseAmountGrouped | main.py:46-48 | A space used as thousands separator and a comma used as decimal mark give the intended number. |
| Scoring.ParseAmountGroupedComma | main.py:46-48 | `"1 234,56"` reads as `1234.56`. |
| Scoring.ParseAmountTwoCommas | main.py:46-50 | Digits with two commas become two points, which `float()` refuses, so the result is `0.0`. |
| Scoring.ParseAmountTwoPoints | main.py:46-50 | `"1,2,3"` reads as `0.0`. |
| Scoring.ParseAmountSeparatorPrefix | main.py:46-50 | `"\x1c5"` reads as `0.0`: neither replacement removes the U+001C, and `float()` refuses it. |
| Scoring.ParseAmountNoDigits | main.py:48-50 | A string without any digit reads as `0.0`. Python's `float()` reads `"nan"`, `"inf"` and `"infinity"` (any case, signed) as NaN or infinity; the model does not (see "## Left out"). |
| Scoring.NormalizeClean | main.py:47 | After `replace(' ', '').replace(',', '.')` no space and no comma is left. |
| Scoring.NormalizeAbsent | main.py:47 | Text without spaces and commas is not changed by the replacements. |
| Scoring.ParseQuantityIsParseAmount | main.py:52-60 | `parse_quantity` agrees with `parse_amount` on every input. |
| Scoring.SuspicionLevel | main.py:110 | The level is `High` exactly above 70, `Medium` exactly in (30, 70], and `Low` exactly at 30 or below. |
| Scoring.SuspicionLevelMonotone | main.py:110 | A higher percentage never gives a lower tier. |
| Scoring.SuspicionLevelBoundaries | main.py:110 | 70 itself is `Medium` and 30 itself is `Low`. |
| Scoring.AssembleResults | main.py:99-111 | Succeeds exactly when every row has a prediction and no row's amount or quantity overflows. Then there is one result per row, in row order, each built from its row's `id`, `subject`, `amount` and `quantity` and from its prediction, with the level's name. Otherwise it fails at the first row that overflows, or with `IndexError` at index `len(predictions)` when every row up to that one converts. |
| Scoring.LoadArtifacts | main.py:81-93 | Succeeds exactly when all four model files and the scaler file exist. A failure names the first missing model in load order, or the scaler when all models are present. |
| Scoring.FirstMissingUnique | main.py:82-92 | The first missing artifact in load order is unique, so the files present determine the failure. |
| Scoring.NothingPresentFailsOnFirstModel | main.py:82-86 | With no file present, the request fails on `xgboost`, the first model loaded. |
| Scoring.Analyze | main.py:81-111 | The ensemble runs only when every artifact is present. A missing artifact fails the request naming the first missing one in load order, as `LoadArtifacts` does. Otherwise the result is the result loop's over the ensemble's predictions: success, overflow and missing prediction as for `AssembleResults`. |
| PyFloat.ParseFloatIff | main.py:48 | `float(s)` gives `v` exactly when `s`, without the whitespace `float()` ignores around it, is the text of a valid decimal literal whose value is `v`. |
| PyFloat.ParseFloatKeepsSeparator | main.py:48 | `float("\x1c5")` raises `ValueError`, although `"\x1c5".strip()` is `"5"`: `float()` does not ignore U+001C. |
| PyFloat.ParseFloatText | main.py:48 | `float()` reads the text of every valid literal as that literal's value. |
| PyFloat.ParseFloatTwoPoints | main.py:48 | Digits holding two decimal points are refused. |
| PyFloat.IntToStringParses | main.py:48 | `float(str(n))` is `n` for every integer. |
| PyFloat.IntToStringInjective | parsebot/parse_goszakup.py:105-106 | `str()` of an integer determines the integer. |
| PyStrings.StripIdempotent | parsebot/parse_goszakup.py:9 | Stripping twice gives the same result as stripping once. |
| PyStrings.StripEmptyIff | parsebot/parse_goszakup.py:9 | `strip()` gives "" exactly for all-whitespace text. |
| PyStrings.JoinSplit | parsebot/parse_goszakup.py:9 | Joining the pieces of a split with the separator gives back the text. |
| PyStrings.SplitJoin | parsebot/parse_goszakup.py:9 | Splitting a join of separator-free pieces gives back the pieces. |
| PyStrings.ReplaceOneChar | main.py:47 | The general `replace` with a one-character pattern replaces character by character. |
| PyStrings.ReplaceCharRemoves | main.py:47 | After replacing `c` by text without `c`, no `c` is left. |

## Left out

- Network I/O leaves no code in the model.
  - `requests.get`, headers, `raise_for_status` and `response.json()` are replaced
    by what they hand back. For the scraper that is a `Response` value. For the
    collector it is a table of per-page `ApiResponse` values, and every page past
    the table is an empty body.
  - Any exception before the parse is one "failed" case.
  - `ScrapePage` receives the fetch as a function parameter.
- HTML parsing by BeautifulSoup is left out. A table row arrives as its `td`
  cells, each cell as its text and its first anchor. `find('table', id=…)`
  becomes the `Option` in `Page`.
- Logging (`print`) and `time.sleep(1)` between pages are left out: they do not
  affect any result. The `execution_time` that `analyze_data` reports, on success
  and in the error detail, is left out with the HTTP layer below.
- Pagination.Crawl: `total_records` is left out. It is set from the first
  non-empty page and used only in a log line.
- `save_to_json` is not part of this model.
- `save_lots`' `False` result on an exception is not modelled, because the model
  reads no disk and no real CSV. The file is a list of lines.
- `pd.DataFrame(lots).to_csv` column layout and quoting are left out: one lot is
  one record line.
- Pagination.ParseLots: `items: null` in the JSON is treated like a missing key
  (no lots). Python passes `None` on, and the loop treats it as empty too.
- `analyze_data`'s request handling is left out: FastAPI, the `.json` file-name
  test, reading and decoding the upload, `json.loads`, building the DataFrame,
  and the HTTP status and body. The 400 raised for a wrong file name is rethrown
  as 500 by the outer `except`, and that is not modelled. A failed request is an
  `AnalysisError` that says which failure occurred. The outer `except` turns every
  failure into a 500 whose detail is `str(e)` and the elapsed time; that text is
  not modelled.
- `joblib.load` and `predict_suspicious` are not part of this model: the
  predictions are a function parameter of `Analyze`.
- Scoring.ParseAmount: `float()` is modelled only on decimal literals. The
  following are read as refused:
  - exponents, `inf`/`nan`, and underscores between digits;
  - digits other than ASCII.

  Binary floating-point rounding is not modelled either: values are exact reals.
  So a digit string beyond the double range reads as its exact value, where
  Python's `float()` gives infinity without raising.
- Scoring.ParseAmount: NaN and infinity are not modelled. pandas fills a cell missing from one
  row but present in another, and a JSON `null` in a numeric column, with
  `float('nan')`. `amount is None` is false for it, so `parse_amount` returns NaN.
  `json.loads` reads a number such as `1e400` as `inf`, and `parse_amount`
  returns it as it is. The model's `Value` has neither: its `Float` holds an
  exact real, and its `Null` is only Python's `None`, which reads as `0.0`.
- Scoring.ParseAmountNoDigits: holds for the modelled `float()` only. Python reads
  the digit-free strings `"nan"`, `"inf"` and `"infinity"`, in any case and with a
  sign, as NaN or infinity rather than refusing them, so for those `parse_amount`
  does not return `0.0`.
- Scoring.AssembleResults: the `id` and `subject` results keep the raw value and
  do not model `str()` rendering of it.
- Scoring.AssembleResults: a row is a map of its own cells, so the defaults of
  `row.get('id', i)` and `row.get('subject', '')` apply row by row. In the source,
  `pd.DataFrame(data)` gives every row every column that any row has. So the
  defaults apply only when the column is absent from every row. A cell missing
  from only some rows is NaN, and its `id` or `subject` is the string `"nan"`.
- Scoring.LoadArtifacts: file existence is a set of file names. Directory
  joining and the loaded objects are left out.
- Negative amounts pass through `parse_amount` as they are (`"-5"` reads as -5.0).
  The system's documentation describes amounts as non-negative, but the code
  does not enforce it. The model follows the code.
- The scraper keeps `quantity` and `amount` as cleaned strings, as the code does.
  It does not convert them to numbers as the documentation describes.
- A scraped row whose first cell is blank is kept with `lot_id` `""`, as
  `ParseBot.ParseLotNumberEmptyId` states. The documentation says `lot_id` is
  never empty, but the code does not skip such rows. The model follows the code.
