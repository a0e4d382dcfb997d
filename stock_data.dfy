/** The price table scrape of the portfolio site: `get_stock_data` fetches the
    exchange's "today's price" page, finds the `table my-table` table, drops
    its header row and turns every other row into one record of ten trimmed
    cell texts, or returns `None` when anything goes wrong.

    The fetch and the HTML parsing are not modelled; their outcome is the
    input `Response`, whose page is the table's rows, each row the text of
    its `td` cells in document order. */
module StockData {
  import opened Wrappers
  import opened Text

  /** The texts of the `td` cells of one `tr`, in document order. */
  type Row = seq<string>

  /** One data row of the price table. Every field is the cell's text with
      surrounding whitespace removed, never converted to a number. */
  datatype StockRecord = StockRecord(
    businessDate: string,
    symbol: string,
    openPrice: string,
    highPrice: string,
    lowPrice: string,
    closePrice: string,
    previousDayClosePrice: string,
    totalTrades: string,
    averageTradedPrice: string,
    marketCapitalization: string)

  /** The ten fields of a record, in the order the source's dictionary lists them. */
  datatype Field =
    | BusinessDate | Symbol | OpenPrice | HighPrice | LowPrice | ClosePrice
    | PreviousDayClosePrice | TotalTrades | AverageTradedPrice | MarketCapitalization

  function Get(r: StockRecord, f: Field): string
  {
    match f
    case BusinessDate => r.businessDate
    case Symbol => r.symbol
    case OpenPrice => r.openPrice
    case HighPrice => r.highPrice
    case LowPrice => r.lowPrice
    case ClosePrice => r.closePrice
    case PreviousDayClosePrice => r.previousDayClosePrice
    case TotalTrades => r.totalTrades
    case AverageTradedPrice => r.averageTradedPrice
    case MarketCapitalization => r.marketCapitalization
  }

  /** The zero-based `td` offset each field is read from. */
  function Offset(f: Field): nat
  {
    match f
    case BusinessDate => 1
    case Symbol => 3
    case OpenPrice => 5
    case HighPrice => 6
    case LowPrice => 7
    case ClosePrice => 8
    case PreviousDayClosePrice => 11
    case TotalTrades => 16
    case AverageTradedPrice => 17
    case MarketCapitalization => 18
  }

  /** Reading `columns[18]`, the highest offset, needs this many cells. */
  const CellsNeeded: nat := 19

  /** The key each field has in the dictionary the source appends. */
  function Key(f: Field): string
  {
    match f
    case BusinessDate => "business_date"
    case Symbol => "symbol"
    case OpenPrice => "open_price"
    case HighPrice => "high_price"
    case LowPrice => "low_price"
    case ClosePrice => "close_price"
    case PreviousDayClosePrice => "previous_day_close_price"
    case TotalTrades => "total_trades"
    case AverageTradedPrice => "average_traded_price"
    case MarketCapitalization => "market_capitalization"
  }

  /** A row read into a record: each field is its cell's text, stripped. A
      row without the cells is the source's `IndexError`; GetStockData
      handles it before calling this. */
  function ToRecord(cells: Row): StockRecord
    requires |cells| >= CellsNeeded
  {
    StockRecord(
      businessDate := Strip(cells[1]),
      symbol := Strip(cells[3]),
      openPrice := Strip(cells[5]),
      highPrice := Strip(cells[6]),
      lowPrice := Strip(cells[7]),
      closePrice := Strip(cells[8]),
      previousDayClosePrice := Strip(cells[11]),
      totalTrades := Strip(cells[16]),
      averageTradedPrice := Strip(cells[17]),
      marketCapitalization := Strip(cells[18]))
  }

  /** The dictionary form of a record: one entry per field under its key,
      and no other entry. */
  function AsDict(r: StockRecord): (m: map<string, string>)
    ensures forall f :: Key(f) in m && m[Key(f)] == Get(r, f)
    ensures forall k :: k in m ==> exists f :: Key(f) == k
  {
    var m := map[
      "business_date" := r.businessDate,
      "symbol" := r.symbol,
      "open_price" := r.openPrice,
      "high_price" := r.highPrice,
      "low_price" := r.lowPrice,
      "close_price" := r.closePrice,
      "previous_day_close_price" := r.previousDayClosePrice,
      "total_trades" := r.totalTrades,
      "average_traded_price" := r.averageTradedPrice,
      "market_capitalization" := r.marketCapitalization];
    assert forall k :: k in m ==> exists f :: Key(f) == k by {
      forall k | k in m ensures exists f :: Key(f) == k {
        if k == "business_date" { assert Key(BusinessDate) == k; }
        else if k == "symbol" { assert Key(Symbol) == k; }
        else if k == "open_price" { assert Key(OpenPrice) == k; }
        else if k == "high_price" { assert Key(HighPrice) == k; }
        else if k == "low_price" { assert Key(LowPrice) == k; }
        else if k == "close_price" { assert Key(ClosePrice) == k; }
        else if k == "previous_day_close_price" { assert Key(PreviousDayClosePrice) == k; }
        else if k == "total_trades" { assert Key(TotalTrades) == k; }
        else if k == "average_traded_price" { assert Key(AverageTradedPrice) == k; }
        else if k == "market_capitalization" { assert Key(MarketCapitalization) == k; }
      }
    }
    m
  }

  /** No two fields share a key, so no entry of the dictionary is lost to another. */
  lemma KeysDistinct(f: Field, g: Field)
    ensures Key(f) == Key(g) ==> f == g
  {
  }

  /** The outcome of the HTTP GET of the price page, with the page already
      parsed. `RequestFailed` is any transport error `requests` raises;
      otherwise `page` holds the rows of the `table my-table` table, or is
      None when the page has no such table. */
  datatype Response =
    | RequestFailed
    | Received(status: int, page: Option<seq<Row>>)

  /** The statuses for which `raise_for_status()` raises: client errors
      (4xx) and server errors (5xx). */
  predicate IsErrorStatus(status: int)
  {
    400 <= status < 600
  }

  /** Python's `rows[1:]`: every row but the first; no rows for an empty table. */
  function DataRows(rows: seq<Row>): (body: seq<Row>)
    ensures |body| == if rows == [] then 0 else |rows| - 1
    ensures forall k :: 0 <= k < |body| ==> body[k] == rows[k + 1]
  {
    if rows == [] then [] else rows[1..]
  }

  /** True when every row has the cells read from it. */
  predicate Complete(body: seq<Row>)
  {
    forall k :: 0 <= k < |body| ==> |body[k]| >= CellsNeeded
  }

  /** The records of complete rows, in row order, as the append loop builds them. */
  function Records(body: seq<Row>): seq<StockRecord>
    requires Complete(body)
  {
    if body == [] then [] else Records(body[..|body| - 1]) + [ToRecord(body[|body| - 1])]
  }

  /** One record per row, and record `k` is read from row `k`. */
  lemma {:induction false} RecordsAt(body: seq<Row>, k: int)
    requires Complete(body)
    requires 0 <= k < |body|
    ensures |Records(body)| == |body|
    ensures Records(body)[k] == ToRecord(body[k])
  {
    var n := |body|;
    if k < n - 1 {
      RecordsAt(body[..n - 1], k);
    } else if n > 1 {
      RecordsAt(body[..n - 1], 0);
    }
  }

  /** What `get_stock_data` returns for a response: None for a failed
      request, an error status or a missing table, None when some data row
      is short, and otherwise the records of the data rows. */
  ghost function Snapshot(resp: Response): Option<seq<StockRecord>>
  {
    match resp
    case RequestFailed => None
    case Received(status, page) =>
      if IsErrorStatus(status) || page.None? || !Complete(DataRows(page.value)) then None
      else Some(Records(DataRows(page.value)))
  }

  /** `get_stock_data`: skip the header row, read each further row into a
      record and append it, and give up with None on the first row that is
      short of cells; no partial list is ever returned. */
  method GetStockData(resp: Response) returns (data: Option<seq<StockRecord>>)
    ensures data == Snapshot(resp)
  {
    if resp.RequestFailed? || IsErrorStatus(resp.status) {
      // a RequestException, raise_for_status's HTTPError among them
      return None;
    }
    if resp.page.None? {
      // `table` is None: `table.find_all` raises
      return None;
    }
    var body := DataRows(resp.page.value);
    var records: seq<StockRecord> := [];
    var i := 0;
    while i < |body|
      invariant 0 <= i <= |body|
      invariant Complete(body[..i])
      invariant records == Records(body[..i])
    {
      var columns := body[i];
      if |columns| < CellsNeeded {
        // `columns[k]` raises IndexError
        assert !Complete(body) by { assert |body[i]| < CellsNeeded; }
        return None;
      }
      ghost var done := body[..i + 1];
      assert done[..i] == body[..i] && done[i] == columns;
      assert Complete(done);
      records := records + [ToRecord(columns)];
      assert records == Records(done);
      i := i + 1;
    }
    assert body[..i] == body;
    return Some(records);
  }

  /** A failed request, an error status and a missing table each yield None. */
  lemma FetchFailuresYieldNone(status: int, page: Option<seq<Row>>)
    ensures Snapshot(RequestFailed) == None
    ensures IsErrorStatus(status) ==> Snapshot(Received(status, page)) == None
    ensures Snapshot(Received(status, None)) == None
  {
  }

  /** The result is present exactly when the fetch succeeded, the table was
      found and every data row has all the cells read from it. */
  lemma SnapshotPresentIff(resp: Response)
    ensures Snapshot(resp).Some? <==>
      && resp.Received?
      && !IsErrorStatus(resp.status)
      && resp.page.Some?
      && forall k :: 1 <= k < |resp.page.value| ==> |resp.page.value[k]| >= CellsNeeded
  {
  }

  /** One short data row anywhere makes the whole result None. */
  lemma ShortRowYieldsNone(status: int, rows: seq<Row>, k: int)
    requires 1 <= k < |rows| && |rows[k]| < CellsNeeded
    ensures Snapshot(Received(status, Some(rows))) == None
  {
  }

  /** A successful result has one record per data row, in row order:
      record `i` comes from row `i + 1`. */
  lemma SnapshotRecords(status: int, rows: seq<Row>, records: seq<StockRecord>)
    requires Snapshot(Received(status, Some(rows))) == Some(records)
    ensures !IsErrorStatus(status)
    ensures |records| == if rows == [] then 0 else |rows| - 1
    ensures forall i :: 1 <= i < |rows| ==> |rows[i]| >= CellsNeeded
    ensures forall i :: 0 <= i < |records| ==> records[i] == ToRecord(rows[i + 1])
  {
    var body := DataRows(rows);
    assert Complete(body) && records == Records(body);
    if body != [] {
      RecordsAt(body, 0);
    }
    forall i | 0 <= i < |records| ensures records[i] == ToRecord(rows[i + 1]) {
      RecordsAt(body, i);
    }
  }

  /** In a successful result every field of record `i` is the stripped text
      of its cell in row `i + 1`, and so has no whitespace at either end. */
  lemma SnapshotField(status: int, rows: seq<Row>, records: seq<StockRecord>, i: int, f: Field)
    requires Snapshot(Received(status, Some(rows))) == Some(records)
    requires 0 <= i < |records|
    ensures i + 1 < |rows| && Offset(f) < |rows[i + 1]|
    ensures Get(records[i], f) == Strip(rows[i + 1][Offset(f)])
    ensures IsStripped(Get(records[i], f))
  {
    SnapshotRecords(status, rows, records);
    CellFeedsField(rows[i + 1], f);
  }

  /** Each field is read from the cell at its offset and stripped, so it
      has no whitespace at either end. */
  lemma CellFeedsField(cells: Row, f: Field)
    requires |cells| >= CellsNeeded
    ensures Offset(f) < |cells|
    ensures Get(ToRecord(cells), f) == Strip(cells[Offset(f)])
    ensures IsStripped(Get(ToRecord(cells), f))
  {
    var _ := StripCut(cells[Offset(f)]);
  }

  /** A table with no data row gives an empty list, not None. */
  lemma NoDataRowsYieldEmpty(status: int, rows: seq<Row>)
    requires !IsErrorStatus(status) && |rows| <= 1
    ensures Snapshot(Received(status, Some(rows))) == Some([])
  {
  }

  /** The header row never matters, whatever it holds and however many
      cells it has. */
  lemma HeaderIgnored(status: int, header1: Row, header2: Row, rest: seq<Row>)
    ensures Snapshot(Received(status, Some([header1] + rest)))
         == Snapshot(Received(status, Some([header2] + rest)))
  {
  }

  /** A header and one data row whose symbol cell is " ABC " and whose
      market capitalisation cell is "1,234,567" give one record with
      symbol "ABC" and market capitalisation "1,234,567". */
  lemma OneRowExample(status: int, header: Row, cells: Row)
    requires !IsErrorStatus(status)
    requires |cells| >= CellsNeeded && cells[3] == " ABC " && cells[18] == "1,234,567"
    ensures Snapshot(Received(status, Some([header, cells]))).Some?
    ensures var records := Snapshot(Received(status, Some([header, cells]))).value;
      |records| == 1 && records[0].symbol == "ABC" && records[0].marketCapitalization == "1,234,567"
  {
    assert " ABC " == " " + "ABC" + " ";
    StripExact(" ", "ABC", " ");
    assert "1,234,567" == [] + "1,234,567" + [];
    StripExact([], "1,234,567", []);
    assert DataRows([header, cells]) == [cells];
    assert [cells][..0] == [];
    assert Records([cells]) == [ToRecord(cells)];
  }
}
