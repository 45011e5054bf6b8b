/** The local store of the exchange mirror: the kline, ticker and symbol
    tables, the queries that read them and the statements that write them.
    Each query is evaluated afresh over the current table; the kline
    sequence the storage object remembers from its last query is passed in
    explicitly as `loaded`. */
module ExchangeStorage {
  import opened Results
  import opened Ordering
  import opened Keyed
  import opened Records
  import opened Text

  /** The kline table, keyed on its unique index (symbol, interval, open_time). */
  type KlineTable = map<BarKey, Bar>

  /** The 24h ticker table, keyed on `symbol`. */
  type TickerTable = map<string, Ticker>

  /** The symbols table, keyed on `symbol`. */
  type SymbolTable = map<string, SymbolRow>

  /** The kline table's unique index holds: at most one bar per
      (symbol, interval, open_time), stored under that key. */
  predicate ValidKlines(t: KlineTable)
  {
    WellKeyed(t, KeyOf)
  }

  // ---------------------------------------------------------------- klines

  /** The open times stored for one (symbol, interval) series. */
  function OpenTimes(t: KlineTable, symbol: string, interval: string): (r: set<int>)
    ensures forall x :: x in r <==> BarKey(symbol, interval, x) in t
  {
    var r := set k | k in t && k.symbol == symbol && k.interval == interval :: k.openTime;
    assert forall x :: BarKey(symbol, interval, x) in t ==> x in r by {
      forall x | BarKey(symbol, interval, x) in t
        ensures x in r
      {
        var k := BarKey(symbol, interval, x);
        assert k in t && k.symbol == symbol && k.interval == interval;
      }
    }
    r
  }

  /** `r` is what the ordered kline query must return for the series: every
      stored bar of the series exactly once, ascending by open time, and
      nothing else. */
  predicate IsSeriesView(t: KlineTable, symbol: string, interval: string, r: seq<Bar>)
  {
    && (forall i, j :: 0 <= i < j < |r| ==> r[i].openTime < r[j].openTime)
    && (forall i :: 0 <= i < |r| ==>
          && r[i].symbol == symbol && r[i].interval == interval
          && KeyOf(r[i]) in t && t[KeyOf(r[i])] == r[i])
    && (forall k :: k in t && k.symbol == symbol && k.interval == interval ==> t[k] in r)
  }

  /** The stored bars of the series at the given open times, in that order. */
  function BarsAt(t: KlineTable, symbol: string, interval: string, times: seq<int>): seq<Bar>
    requires forall x :: x in times ==> BarKey(symbol, interval, x) in t
  {
    seq(|times|, i requires 0 <= i < |times| => t[BarKey(symbol, interval, times[i])])
  }

  lemma BarsAtIsSeriesView(t: KlineTable, symbol: string, interval: string, times: seq<int>)
    requires ValidKlines(t)
    requires Ascending(times)
    requires forall x :: x in times <==> BarKey(symbol, interval, x) in t
    ensures IsSeriesView(t, symbol, interval, BarsAt(t, symbol, interval, times))
  {
    var r := BarsAt(t, symbol, interval, times);
    forall i | 0 <= i < |r|
      ensures KeyOf(r[i]) == BarKey(symbol, interval, times[i])
    {
      assert times[i] in times;
    }
    forall k | k in t && k.symbol == symbol && k.interval == interval
      ensures t[k] in r
    {
      assert k == BarKey(symbol, interval, k.openTime);
      var i :| 0 <= i < |times| && times[i] == k.openTime;
      assert r[i] == t[k];
    }
  }

  /** `getKlines`: the bars of one (symbol, interval) ordered by open time. */
  function GetKlines(t: KlineTable, symbol: string, interval: string): (r: seq<Bar>)
    requires ValidKlines(t)
    ensures IsSeriesView(t, symbol, interval, r)
    ensures r == [] <==> OpenTimes(t, symbol, interval) == {}
  {
    var times := SortAscending(OpenTimes(t, symbol, interval));
    BarsAtIsSeriesView(t, symbol, interval, times);
    BarsAt(t, symbol, interval, times)
  }

  /** `getLastBar`: the last bar of the loaded series, if any. */
  function GetLastBar(loaded: seq<Bar>): (r: Option<Bar>)
    ensures r.None? <==> loaded == []
    ensures r.Some? ==> r.value == loaded[|loaded| - 1]
  {
    if loaded == [] then None else Some(loaded[|loaded| - 1])
  }

  /** `isTheLastBarStillOpen`: the remote tail bar is the same bar as the
      loaded tail, judged by open time alone. */
  predicate IsTheLastBarStillOpen(loaded: seq<Bar>, remoteTail: Bar)
  {
    match GetLastBar(loaded)
    case None => false
    case Some(last) => remoteTail.openTime == last.openTime
  }

  /** `getMissingKlinesStartTime`: two intervals before the loaded tail, or 0
      when nothing is loaded (the timeframe table is then not consulted). */
  function GetMissingKlinesStartTime(loaded: seq<Bar>, interval: string, timeframes: map<string, int>): (r: Result<int>)
    ensures loaded == [] ==> r == Ok(0)
    ensures loaded != [] && interval !in timeframes ==> r == Err(UnknownInterval)
    ensures loaded != [] && interval in timeframes ==>
      r.Ok? && r.value + 2 * timeframes[interval] == loaded[|loaded| - 1].openTime
  {
    match GetLastBar(loaded)
    case None => Ok(0)
    case Some(last) =>
      if interval in timeframes then Ok(last.openTime - timeframes[interval] * 2)
      else Err(UnknownInterval)
  }

  /** `updateLastBar`: nothing when no series is loaded, otherwise an upsert
      of the single remote bar on its key. */
  function UpdateLastBar(t: KlineTable, loaded: seq<Bar>, remoteTail: Bar): (r: KlineTable)
    ensures loaded == [] ==> r == t
    ensures loaded != [] ==>
      && r.Keys == t.Keys + {KeyOf(remoteTail)}
      && r[KeyOf(remoteTail)] == remoteTail
      && (forall k :: k in t && k != KeyOf(remoteTail) ==> r[k] == t[k])
    ensures ValidKlines(t) ==> ValidKlines(r)
  {
    if GetLastBar(loaded).Some? then
      var r := UpsertAll(t, [remoteTail], KeyOf);
      assert KeysOf([remoteTail], KeyOf) == {KeyOf(remoteTail)};
      assert LastOfKey([remoteTail], 0, KeyOf);
      r
    else t
  }

  /** `updateMissingKlines`: upsert of a fetched batch on the kline key. */
  function UpdateMissingKlines(t: KlineTable, bars: seq<Bar>): (r: KlineTable)
    ensures r.Keys == t.Keys + KeysOf(bars, KeyOf)
    ensures forall k :: k in t && k !in KeysOf(bars, KeyOf) ==> r[k] == t[k]
    ensures forall i :: 0 <= i < |bars| && LastOfKey(bars, i, KeyOf) ==> r[KeyOf(bars[i])] == bars[i]
    ensures ValidKlines(t) ==> ValidKlines(r)
  {
    UpsertAll(t, bars, KeyOf)
  }

  /** `createNewKlines`: a plain insert, which fails on any key that is
      already stored or repeated within the batch. */
  function CreateNewKlines(t: KlineTable, bars: seq<Bar>): (r: Result<KlineTable>)
    ensures r.Ok? <==> Fresh(t, bars, KeyOf)
    ensures r.Err? ==> r.error == DuplicateKey
    ensures r.Ok? ==> r.value.Keys == t.Keys + KeysOf(bars, KeyOf)
    ensures r.Ok? ==> forall k :: k in t ==> r.value[k] == t[k]
    ensures r.Ok? ==> forall i :: 0 <= i < |bars| ==> r.value[KeyOf(bars[i])] == bars[i]
    ensures r.Ok? && ValidKlines(t) ==> ValidKlines(r.value)
  {
    var r := InsertAll(t, bars, KeyOf);
    if r.Ok? then
      InsertAgreesWithUpsert(t, bars, KeyOf);
      r
    else r
  }

  // --------------------------------------------------------------- tickers

  /** Upsert of one ticker on `symbol`: a new symbol is inserted whole, an
      existing row takes over only the TICKER_COLUMNS values. */
  function UpsertTicker(tt: TickerTable, row: Ticker): (r: TickerTable)
    ensures r.Keys == tt.Keys + {row.symbol}
    ensures forall s :: s in tt && s != row.symbol ==> r[s] == tt[s]
    ensures forall s :: s in tt ==> r[s].symbol == tt[s].symbol && r[s].other == tt[s].other
    ensures r[row.symbol].columns == row.columns
    ensures row.symbol !in tt ==> r[row.symbol] == row
    ensures WellKeyed(tt, TickerKey) ==> WellKeyed(r, TickerKey)
  {
    if row.symbol in tt then tt[row.symbol := Ticker(tt[row.symbol].symbol, row.columns, tt[row.symbol].other)]
    else tt[row.symbol := row]
  }

  /** `r` is what refreshing `tt` with the batch `rows` must leave: the keys
      grow by the batch's symbols, symbols outside the batch keep their rows,
      existing rows keep their symbol and non-TICKER_COLUMNS values, a new
      symbol's row is inserted from its first batch row, each symbol's
      columns come from its last batch row, and rows stay under their own
      symbol. */
  predicate IsTickerRefresh(tt: TickerTable, rows: seq<Ticker>, r: TickerTable)
  {
    && r.Keys == tt.Keys + KeysOf(rows, TickerKey)
    && (forall s :: s in tt && s !in KeysOf(rows, TickerKey) ==> r[s] == tt[s])
    && (forall s :: s in tt ==> r[s].symbol == tt[s].symbol && r[s].other == tt[s].other)
    && (forall i :: 0 <= i < |rows| && rows[i].symbol !in tt && FirstOfKey(rows, i, TickerKey) ==>
          r[rows[i].symbol].symbol == rows[i].symbol && r[rows[i].symbol].other == rows[i].other)
    && (forall i :: 0 <= i < |rows| && LastOfKey(rows, i, TickerKey) ==> r[rows[i].symbol].columns == rows[i].columns)
    && (WellKeyed(tt, TickerKey) ==> WellKeyed(r, TickerKey))
  }

  /** `updateTickers`: the ticker upsert of a whole batch, in batch order. */
  function UpdateTickers(tt: TickerTable, rows: seq<Ticker>): (r: TickerTable)
    ensures r.Keys == tt.Keys + KeysOf(rows, TickerKey)
    ensures forall s :: s in tt && s !in KeysOf(rows, TickerKey) ==> r[s] == tt[s]
    ensures forall s :: s in tt ==> r[s].symbol == tt[s].symbol && r[s].other == tt[s].other
    ensures forall i :: 0 <= i < |rows| && rows[i].symbol !in tt && FirstOfKey(rows, i, TickerKey) ==>
      r[rows[i].symbol].symbol == rows[i].symbol && r[rows[i].symbol].other == rows[i].other
    ensures forall i :: 0 <= i < |rows| && LastOfKey(rows, i, TickerKey) ==> r[rows[i].symbol].columns == rows[i].columns
    ensures WellKeyed(tt, TickerKey) ==> WellKeyed(r, TickerKey)
    decreases |rows|
  {
    if rows == [] then tt
    else
      var r := UpdateTickers(UpsertTicker(tt, rows[0]), rows[1..]);
      TickerRefreshStep(tt, rows, r);
      r
  }

  lemma TickerRefreshStep(tt: TickerTable, rows: seq<Ticker>, r: TickerTable)
    requires rows != []
    requires IsTickerRefresh(UpsertTicker(tt, rows[0]), rows[1..], r)
    ensures IsTickerRefresh(tt, rows, r)
  {
    KeysOfCons(rows, TickerKey);
    LastOfKeyCons(rows, TickerKey);
    FirstOfKeyCons(rows, TickerKey);
  }

  /** `getAllTickers`: every stored ticker and nothing else (the query has
      no order). */
  function GetAllTickers(tt: TickerTable): (r: set<Ticker>)
    ensures forall s :: s in tt ==> tt[s] in r
    ensures forall x :: x in r ==> exists s :: s in tt && tt[s] == x
  {
    tt.Values
  }

  /** The quote-asset filter of `getTickers`: the symbol ends with the quote
      asset and the last price is positive. */
  predicate QuotedAndPriced(x: Ticker, quoteAsset: string)
  {
    EndsWith(x.symbol, quoteAsset) && x.columns.lastPrice > 0.0
  }

  /** `getTickers`: the stored tickers, filtered when a quote asset is given. */
  function GetTickers(tt: TickerTable, quoteAsset: string): (r: set<Ticker>)
    ensures r <= tt.Values
    ensures forall x :: x in tt.Values ==>
      (x in r <==> IsPhpEmpty(quoteAsset) || QuotedAndPriced(x, quoteAsset))
  {
    if IsPhpEmpty(quoteAsset) then tt.Values
    else set x | x in tt.Values && QuotedAndPriced(x, quoteAsset)
  }

  // --------------------------------------------------------------- symbols

  /** `filters[i]` is the first PRICE_FILTER of the list. */
  predicate IsFirstPriceFilter(filters: seq<Filter>, i: nat)
    requires i < |filters|
  {
    filters[i].filterType == "PRICE_FILTER"
    && forall j :: 0 <= j < i ==> filters[j].filterType != "PRICE_FILTER"
  }

  /** `getMinPrice`: the `minPrice` of the first PRICE_FILTER, or "". */
  function MinPrice(filters: seq<Filter>): (r: string)
    ensures (forall i :: 0 <= i < |filters| ==> filters[i].filterType != "PRICE_FILTER") ==> r == ""
    ensures forall i :: 0 <= i < |filters| && IsFirstPriceFilter(filters, i) ==> r == filters[i].minPrice
    decreases |filters|
  {
    if filters == [] then ""
    else if filters[0].filterType == "PRICE_FILTER" then filters[0].minPrice
    else
      var r := MinPrice(filters[1..]);
      assert forall i :: 1 <= i < |filters| ==> filters[i] == filters[1..][i - 1];
      r
  }

  /** One symbols-table row projected from an exchange-info entry. */
  function ProjectSymbol(info: SymbolInfo): SymbolRow
  {
    SymbolRow(
      info.symbol, info.status, info.baseAsset, info.baseAssetPrecision, info.quoteAsset,
      MinPrice(info.filters), Join(info.orderTypes), Join(info.permissions))
  }

  /** `extractSymbols`: one row per listed symbol, in list order. */
  function ExtractSymbols(info: ExchangeInfo): (r: seq<SymbolRow>)
    ensures |r| == |info.symbols|
    ensures forall i :: 0 <= i < |r| ==> r[i] == ProjectSymbol(info.symbols[i])
  {
    seq(|info.symbols|, i requires 0 <= i < |info.symbols| => ProjectSymbol(info.symbols[i]))
  }

  /** `updateExchangeInfo` of the storage: upsert of the projected rows on
      `symbol`, replacing whole rows. */
  function UpdateExchangeInfo(st: SymbolTable, info: ExchangeInfo): (r: SymbolTable)
    ensures r.Keys == st.Keys + KeysOf(ExtractSymbols(info), SymbolKey)
    ensures forall s :: s in st && s !in KeysOf(ExtractSymbols(info), SymbolKey) ==> r[s] == st[s]
    ensures forall i :: 0 <= i < |info.symbols| && LastOfKey(ExtractSymbols(info), i, SymbolKey) ==>
      r[info.symbols[i].symbol] == ProjectSymbol(info.symbols[i])
    ensures WellKeyed(st, SymbolKey) ==> WellKeyed(r, SymbolKey)
  {
    UpsertAll(st, ExtractSymbols(info), SymbolKey)
  }

  /** `getSymbols`: the names of trading symbols, narrowed to one quote
      asset when a non-empty one is given. */
  function GetSymbols(st: SymbolTable, quoteAsset: string): (r: set<string>)
    ensures forall row :: row in st.Values ==>
      (row.status == "TRADING" && (IsPhpEmpty(quoteAsset) || row.quoteAsset == quoteAsset) ==> row.symbol in r)
    ensures forall name :: name in r ==>
      (exists row :: row in st.Values && row.symbol == name
        && row.status == "TRADING" && (IsPhpEmpty(quoteAsset) || row.quoteAsset == quoteAsset))
  {
    set row | row in st.Values && row.status == "TRADING" && (IsPhpEmpty(quoteAsset) || row.quoteAsset == quoteAsset)
      :: row.symbol
  }

  /** `getSymbolMinPrice`: the stored minimum price of a symbol, or "". */
  function GetSymbolMinPrice(st: SymbolTable, symbol: string): (r: string)
    ensures symbol !in st ==> r == ""
    ensures symbol in st ==> r == st[symbol].minPrice
  {
    if symbol in st then st[symbol].minPrice else ""
  }
}
