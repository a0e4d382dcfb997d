# Stock price table scrape, modelled in Dafny

The portfolio site shows today's share prices from the Nepal Stock Exchange.
`get_stock_data` in `app.py` fetches the exchange's "today's price" page and
finds the `table my-table` table. It drops the table's header row. Every other
row becomes a record of ten fields, each field the text of one `td` cell at a
fixed zero-based offset with surrounding whitespace stripped. The records come
back in row order. If anything goes wrong, the function returns `None`: a
failed request, an error status, a missing table, or a row with too few cells.

The model has three files:

- `wrappers.dfy` (module `Wrappers`): `Option`, standing for Python's value-or-`None`.
- `text.dfy` (module `Text`): Python's `str.strip()` with no argument. Whitespace is the
  character set `str.isspace()` accepts: U+0009..U+000D, U+001C..U+001F,
  U+0020, U+0085, U+00A0, U+1680, U+2000..U+200A, U+2028, U+2029, U+202F, U+205F
  and U+3000. `Strip` is `lstrip` followed by `rstrip`. Lemmas state what `Strip`
  returns (a contiguous, stripped piece of its input, with only whitespace cut
  away) and that this cut is unique. Further lemmas give idempotence and show
  that whitespace inside the text is kept.
- `stock_data.dfy` (module `StockData`): the fetch outcome `Response`, the record
  `StockRecord`, the field/offset/key tables, and `GetStockData`, the append
  loop of the source. The input abstracts the fetch and the parse:
  - `RequestFailed` stands for any exception `requests` raises.
  - Otherwise the input is `Received(status, page)`. `page` is `None` when
    `soup.find` finds no table; else it holds the table's rows, each row the
    texts of its `td` cells.

  `GetStockData` is proved equal to `Snapshot`, which states the result
  without a loop. The lemmas about `Snapshot` cover:
  - when the result is present;
  - the number of records and their order;
  - which cell feeds each field;
  - that a single short row makes the whole result `None`;
  - that the header row is ignored.

Interpretations of the source:

- `raise_for_status()` raises exactly for statuses 400 to 599, so `IsErrorStatus`
  is `400 <= status < 600`. Any other status goes on to parsing.
- `table.find_all('tr')[1:]` on a table with no rows is the empty list, so a
  table with zero or one rows yields `Some([])`, not `None` (`DataRows`).
- `columns[18]` is the highest cell read, so a data row needs at least 19
  cells. A shorter row raises `IndexError` inside the loop. The generic
  `except` catches it and returns `None`; the records already built are dropped.
- Each record is a `StockRecord` value. `AsDict` gives the dictionary the
  source appends, keyed by `business_date`, `symbol`, …,
  `market_capitalization`.
- The code returns a bare `None` in every failure case. It does not say which
  kind of failure occurred or which row was short, and the model does the same.

## Model

| member | source | states |
|---|---|---|
| `Text.IsWhitespace` | app.py:53-62 | no contract; the character set `str.isspace()` accepts, which `.strip()` removes; used by `StripCut`, `StripExact` and `StripLeadingCuts`/`StripTrailingCuts` |
| `Text.Strip` | app.py:53-62 | no contract; `.strip()` as `lstrip` then `rstrip`, specified by `StripCut` and `StripExact` |
| `Text.StripLeadingCuts` | app.py:53-62 | `lstrip` keeps a suffix of its input, what it cuts is all whitespace, and what it keeps does not start with whitespace |
| `Text.StripTrailingCuts` | app.py:53-62 | `rstrip` keeps a prefix of its input, what it cuts is all whitespace, and what it keeps does not end with whitespace |
| `Text.StripCut` | app.py:53-62 | the result of `.strip()` has no whitespace at either end and is a contiguous piece of the cell text with only whitespace on either side of it |
| `Text.StripExact` | app.py:53-62 | for any whitespace `p`, `q` and any stripped `t` (interior whitespace allowed), `.strip()` of `p + t + q` is exactly `t`; with `StripCut` this pins the result down uniquely |
| `Text.StripIdempotent` | app.py:53-62 | stripping a stripped value changes nothing |
| `Text.StripKeepsInteriorWhitespace` | app.py:53-62 | whitespace inside a cell survives stripping: `"\t Nabil Bank \n"` becomes `"Nabil Bank"` |
| `Text.StripKeepsNumberText` | app.py:53-75 | a cell `" 1,234,567 "` yields the text `"1,234,567"`: values stay text and are not converted to numbers |
| `StockData.IsErrorStatus` | app.py:40 | no contract; the statuses 400 to 599 for which `raise_for_status()` raises, used by `FetchFailuresYieldNone` and `SnapshotPresentIff` |
| `StockData.DataRows` | app.py:49 | `rows[1:]` has one row fewer than the table (none for an empty table) and data row `k` is table row `k + 1` |
| `StockData.CellFeedsField` | app.py:53-62 | each field of a record is the stripped text of the cell at its offset (1, 3, 5, 6, 7, 8, 11, 16, 17, 18), all below the 19 cells required, and has no whitespace at either end |
| `StockData.ToRecord` | app.py:50-75 | no contract; builds the record of one row, specified by `CellFeedsField` and `SnapshotField` |
| `StockData.AsDict` | app.py:64-75 | the dictionary form of a record holds every field under its source key and no other key |
| `StockData.KeysDistinct` | app.py:64-75 | the ten dictionary keys are pairwise distinct |
| `StockData.RecordsAt` | app.py:48-76 | the appended list has one record per processed row, and record `k` is read from row `k` |
| `StockData.Records` | app.py:48-76 | no contract; the list the append loop builds, specified by `RecordsAt` |
| `StockData.Snapshot` | app.py:38-86 | no contract; the function's outcome, stated without a loop and specified by `FetchFailuresYieldNone`, `SnapshotPresentIff`, `ShortRowYieldsNone`, `SnapshotRecords`, `SnapshotField`, `NoDataRowsYieldEmpty` and `HeaderIgnored` |
| `StockData.GetStockData` | app.py:35-86 | the loop over the data rows returns exactly `Snapshot` of the response: `None` on any failure, otherwise all records in row order |
| `StockData.FetchFailuresYieldNone` | app.py:38-86 | a failed request, a 4xx/5xx status and a missing table each give `None` |
| `StockData.SnapshotPresentIff` | app.py:38-86 | the result is present if and only if the request succeeded with a non-error status, the table was found and every row after the header has at least 19 cells |
| `StockData.ShortRowYieldsNone` | app.py:49-86 | one data row with fewer than 19 cells makes the whole result `None`, never a partial list |
| `StockData.SnapshotRecords` | app.py:48-78 | a successful result has one record per row after the header, zero for a table of zero or one rows, and record `i` is built from row `i + 1` |
| `StockData.SnapshotField` | app.py:53-75 | in a successful result, field `f` of record `i` equals the stripped text of cell `Offset(f)` of row `i + 1` and has no surrounding whitespace |
| `StockData.NoDataRowsYieldEmpty` | app.py:48-78 | a table with zero or one rows gives the empty list, not `None` |
| `StockData.HeaderIgnored` | app.py:49 | replacing the header row by any other row, of any length, leaves the result unchanged |
| `StockData.OneRowExample` | app.py:49-78 | a header plus one data row whose symbol cell is `" ABC "` and whose market capitalisation cell is `"1,234,567"` gives one record with symbol `"ABC"` and market capitalisation `"1,234,567"` |

## Left out

- The HTTP GET (`requests.get`, `raise_for_status`, app.py:39-40) is network I/O. Only its outcome is modelled: a transport failure, or a status plus the parsed page.
- HTML parsing and element lookup with BeautifulSoup (app.py:42-50) is a foreign library. The page enters the model already reduced to the table's rows of `td` texts. How `.text` gathers a cell's text and how `find_all` descends into nested elements are not modelled.
- The CSS-selector scrape after the `return` and `except` blocks (app.py:88-101) is unreachable and is not modelled.
- The Flask routes `home`, `register` and `login` (app.py:104-140) are web-framework plumbing, along with templates and flash messages. `home` only tests the result for `None` to pick a template.
- The `User` model and the SQLAlchemy session (app.py:15-23) are an ORM-backed store with trivial create and read operations.
- The WTForms classes and their `DataRequired` and `Length` validators (app.py:25-33) are library-provided validation.
- The `print` of the error (app.py:81, app.py:85) and the debug server start-up (app.py:144-147) are I/O. The caught exception's message is not part of the result.
- Exceptions other than a failed request, a missing table and a short row are not modelled, because over plain rows of text nothing else in the loop can raise.
- `StockData.ToRecord` has no contract of its own. What it does is stated by `StockData.CellFeedsField` and `StockData.SnapshotField`.
