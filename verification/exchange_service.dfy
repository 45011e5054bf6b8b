/** The exchange service: kline reconciliation between the remote exchange
    and the local store, and the staleness-gated refresh of the ticker and
    exchange-info caches.

    Remote calls are inputs: the remote tail bar and the remote ticker and
    exchange-info payloads are `Result` values, and the kline page fetch is
    a function from the request to its outcome, so that the request the
    service makes is part of what is stated.  The clock is the `now`
    argument. */
module ExchangeService {
  import opened Results
  import opened Keyed
  import opened Records
  import opened Text
  import opened ExchangeStorage

  /** Minimum age of the ticker cache before it is refreshed (1 min). */
  const TICKER24_UPDATE_MS: int := 1000 * 60

  /** Minimum age of the exchange-info cache before it is refreshed (2 min). */
  const EXCHANGE_INFO_UPDATE_MS: int := 1000 * 60 * 2

  /** Page size asked for when backfilling a gap. */
  const GAP_FETCH_LIMIT: int := 1000

  /** The persisted "last refreshed at" timestamps, one per gated cache. */
  datatype RefreshState = RefreshState(ticker24LastUpdate: int, exchangeInfoLastUpdate: int)

  /** Everything the service persists. */
  datatype Store = Store(
    klines: KlineTable,
    tickers: TickerTable,
    symbols: SymbolTable,
    refresh: RefreshState)

  /** A kline page request to the exchange: the default latest page, or a
      bounded range. */
  datatype KlineRequest =
    | LatestPage(symbol: string, interval: string)
    | Range(symbol: string, interval: string, startTime: int, endTime: int, limit: int)

  /** What a service call leaves behind: the store after the call (also
      after a failure part-way) and the answer or the failure. */
  datatype Served<T> = Served(store: Store, answer: Result<T>)

  /** Only the kline table may differ between the two stores. */
  predicate OnlyKlinesChange(before: Store, after: Store)
  {
    after.tickers == before.tickers && after.symbols == before.symbols && after.refresh == before.refresh
  }

  // ------------------------------------------------------- reconciliation

  /** Empty-store path: fetch the default page, insert it and answer it. */
  function ServeEmpty(store: Store, symbol: string, interval: string,
                      fetch: KlineRequest -> Result<seq<Bar>>): (r: Served<seq<Bar>>)
    requires ValidKlines(store.klines)
    ensures OnlyKlinesChange(store, r.store) && ValidKlines(r.store.klines)
    ensures fetch(LatestPage(symbol, interval)).Err? ==>
      r == Served(store, Err(fetch(LatestPage(symbol, interval)).error))
    ensures fetch(LatestPage(symbol, interval)).Ok? ==>
      var page := fetch(LatestPage(symbol, interval)).value;
      && (Fresh(store.klines, page, KeyOf) ==>
            && r.answer == Ok(page)
            && r.store.klines.Keys == store.klines.Keys + KeysOf(page, KeyOf)
            && (forall k :: k in store.klines ==> r.store.klines[k] == store.klines[k])
            && (forall i :: 0 <= i < |page| ==> r.store.klines[KeyOf(page[i])] == page[i]))
      && (!Fresh(store.klines, page, KeyOf) ==> r == Served(store, Err(DuplicateKey)))
  {
    match fetch(LatestPage(symbol, interval))
    case Err(e) => Served(store, Err(e))
    case Ok(page) =>
      match CreateNewKlines(store.klines, page)
      case Err(e) => Served(store, Err(e))
      case Ok(t) => Served(store.(klines := t), Ok(page))
  }

  /** Tail-still-open path: upsert the remote tail and answer the loaded
      series with its last bar replaced by the remote one. */
  function SpliceTail(store: Store, loaded: seq<Bar>, tail: Bar): (r: Served<seq<Bar>>)
    requires loaded != []
    ensures OnlyKlinesChange(store, r.store)
    ensures ValidKlines(store.klines) ==> ValidKlines(r.store.klines)
    ensures r.answer.Ok?
    ensures |r.answer.value| == |loaded|
    ensures forall i :: 0 <= i < |loaded| - 1 ==> r.answer.value[i] == loaded[i]
    ensures r.answer.value[|loaded| - 1] == tail
    ensures r.store.klines.Keys == store.klines.Keys + {KeyOf(tail)}
    ensures r.store.klines[KeyOf(tail)] == tail
    ensures forall k :: k in store.klines && k != KeyOf(tail) ==> r.store.klines[k] == store.klines[k]
  {
    Served(store.(klines := UpdateLastBar(store.klines, loaded, tail)), Ok(loaded[..|loaded| - 1] + [tail]))
  }

  /** The range the gap path asks for: from two intervals before the loaded
      tail up to the remote tail's open time, at most 1000 bars. */
  function GapRequest(symbol: string, interval: string, loaded: seq<Bar>, tail: Bar,
                      timeframes: map<string, int>): (r: Result<KlineRequest>)
    requires loaded != []
    ensures interval !in timeframes ==> r == Err(UnknownInterval)
    ensures interval in timeframes ==> r.Ok? && r.value.Range?
    ensures r.Ok? ==>
      && r.value.symbol == symbol && r.value.interval == interval
      && r.value.startTime == loaded[|loaded| - 1].openTime - 2 * timeframes[interval]
      && r.value.endTime == tail.openTime
      && r.value.limit == 1000
  {
    match GetMissingKlinesStartTime(loaded, interval, timeframes)
    case Err(e) => Err(e)
    case Ok(start) => Ok(Range(symbol, interval, start, tail.openTime, GAP_FETCH_LIMIT))
  }

  /** Gap path: fetch the missing range, upsert it, and answer the series
      re-read from the store (not the fetched page). */
  function Backfill(store: Store, symbol: string, interval: string, loaded: seq<Bar>, tail: Bar,
                    timeframes: map<string, int>, fetch: KlineRequest -> Result<seq<Bar>>): (r: Served<seq<Bar>>)
    requires ValidKlines(store.klines)
    requires loaded != []
    ensures OnlyKlinesChange(store, r.store) && ValidKlines(r.store.klines)
    ensures GapRequest(symbol, interval, loaded, tail, timeframes).Err? ==>
      r == Served(store, Err(UnknownInterval))
    ensures GapRequest(symbol, interval, loaded, tail, timeframes).Ok? ==>
      var request := GapRequest(symbol, interval, loaded, tail, timeframes).value;
      && (fetch(request).Err? ==> r == Served(store, Err(fetch(request).error)))
      && (fetch(request).Ok? ==>
            && r.store.klines == UpdateMissingKlines(store.klines, fetch(request).value)
            && r.answer == Ok(GetKlines(r.store.klines, symbol, interval)))
  {
    match GapRequest(symbol, interval, loaded, tail, timeframes)
    case Err(e) => Served(store, Err(e))
    case Ok(request) =>
      match fetch(request)
      case Err(e) => Served(store, Err(e))
      case Ok(missing) =>
        var t := UpdateMissingKlines(store.klines, missing);
        Served(store.(klines := t), Ok(GetKlines(t, symbol, interval)))
  }

  /** `getKlineData`: compare the remote tail bar with the stored series and
      take the empty, tail-still-open or gap path. */
  function GetKlineData(store: Store, symbol: string, interval: string, timeframes: map<string, int>,
                        remoteTail: Result<Bar>, fetch: KlineRequest -> Result<seq<Bar>>): (r: Served<seq<Bar>>)
    requires ValidKlines(store.klines)
    ensures OnlyKlinesChange(store, r.store) && ValidKlines(r.store.klines)
    ensures remoteTail.Err? ==> r == Served(store, Err(remoteTail.error))
    ensures remoteTail.Ok? ==>
      var loaded := GetKlines(store.klines, symbol, interval);
      var tail := remoteTail.value;
      && (loaded == [] ==> r == ServeEmpty(store, symbol, interval, fetch))
      && (loaded != [] && tail.openTime == loaded[|loaded| - 1].openTime ==>
            r == SpliceTail(store, loaded, tail))
      && (loaded != [] && tail.openTime != loaded[|loaded| - 1].openTime ==>
            r == Backfill(store, symbol, interval, loaded, tail, timeframes, fetch))
  {
    match remoteTail
    case Err(e) => Served(store, Err(e))
    case Ok(tail) =>
      var loaded := GetKlines(store.klines, symbol, interval);
      if loaded != [] then
        if IsTheLastBarStillOpen(loaded, tail) then SpliceTail(store, loaded, tail)
        else Backfill(store, symbol, interval, loaded, tail, timeframes, fetch)
      else ServeEmpty(store, symbol, interval, fetch)
  }

  /** `updateAndGetLastBar`: fetch the remote tail, upsert it when a series
      is loaded, and answer it. */
  function UpdateAndGetLastBar(store: Store, loaded: seq<Bar>, remoteTail: Result<Bar>): (r: Served<Bar>)
    ensures OnlyKlinesChange(store, r.store)
    ensures remoteTail.Err? ==> r == Served(store, Err(remoteTail.error))
    ensures remoteTail.Ok? ==> r.answer == remoteTail
    ensures remoteTail.Ok? && loaded == [] ==> r.store == store
    ensures remoteTail.Ok? && loaded != [] ==>
      && r.store.klines.Keys == store.klines.Keys + {KeyOf(remoteTail.value)}
      && r.store.klines[KeyOf(remoteTail.value)] == remoteTail.value
      && (forall k :: k in store.klines && k != KeyOf(remoteTail.value) ==> r.store.klines[k] == store.klines[k])
  {
    match remoteTail
    case Err(e) => Served(store, Err(e))
    case Ok(tail) => Served(store.(klines := UpdateLastBar(store.klines, loaded, tail)), Ok(tail))
  }

  // --------------------------------------------------------- staleness gate

  /** A gated cache is refreshed only once it is older than the threshold. */
  predicate IsStale(last: int, now: int, threshold: int)
  {
    now - last > threshold
  }

  /** The timestamp a gate call leaves: `now` when it refreshes, else the
      old one.  It is written before the remote fetch, so it stands even
      when the fetch fails. */
  function Mark(last: int, now: int, threshold: int): (r: int)
    requires threshold >= 0
    ensures r >= last
    ensures r == now <==> IsStale(last, now, threshold) || now == last
    ensures !IsStale(last, now, threshold) ==> r == last
  {
    if IsStale(last, now, threshold) then now else last
  }

  /** The ticker read `getTicker24h` serves: filtered (and, in the source,
      sorted) when a non-empty quote asset is given, all tickers otherwise. */
  function ReadTickers(tt: TickerTable, quoteAsset: string): (r: set<Ticker>)
    ensures r <= tt.Values
    ensures IsPhpEmpty(quoteAsset) ==> r == tt.Values
    ensures !IsPhpEmpty(quoteAsset) ==>
      forall x :: x in tt.Values ==> (x in r <==> QuotedAndPriced(x, quoteAsset))
  {
    if !IsPhpEmpty(quoteAsset) then GetTickers(tt, quoteAsset) else GetAllTickers(tt)
  }

  /** `getTicker24h`: refresh the ticker table when it is stale, then serve
      from the local table in every case. */
  function GetTicker24h(store: Store, now: int, remote: Result<seq<Ticker>>, quoteAsset: string): (r: Served<set<Ticker>>)
    ensures r.store.klines == store.klines && r.store.symbols == store.symbols
    ensures r.store.refresh.exchangeInfoLastUpdate == store.refresh.exchangeInfoLastUpdate
    ensures r.store.refresh.ticker24LastUpdate >= store.refresh.ticker24LastUpdate
    ensures !IsStale(store.refresh.ticker24LastUpdate, now, TICKER24_UPDATE_MS) ==>
      r == Served(store, Ok(ReadTickers(store.tickers, quoteAsset)))
    ensures IsStale(store.refresh.ticker24LastUpdate, now, TICKER24_UPDATE_MS) ==>
      && r.store.refresh.ticker24LastUpdate == now
      && (remote.Err? ==> r.answer == Err(remote.error) && r.store.tickers == store.tickers)
      && (remote.Ok? ==> r.store.tickers == UpdateTickers(store.tickers, remote.value)
                         && r.answer == Ok(ReadTickers(r.store.tickers, quoteAsset)))
    ensures r.answer.Ok? ==> r.answer == Ok(ReadTickers(r.store.tickers, quoteAsset))
  {
    var last := store.refresh.ticker24LastUpdate;
    if IsStale(last, now, TICKER24_UPDATE_MS) then
      var marked := store.(refresh := store.refresh.(ticker24LastUpdate := Mark(last, now, TICKER24_UPDATE_MS)));
      match remote
      case Err(e) => Served(marked, Err(e))
      case Ok(rows) =>
        var refreshed := marked.(tickers := UpdateTickers(marked.tickers, rows));
        Served(refreshed, Ok(ReadTickers(refreshed.tickers, quoteAsset)))
    else
      Served(store, Ok(ReadTickers(store.tickers, quoteAsset)))
  }

  /** `updateExchangeInfo`: refresh the symbols table when it is stale. */
  function UpdateExchangeInfo(store: Store, now: int, remote: Result<ExchangeInfo>): (r: Served<()>)
    ensures r.store.klines == store.klines && r.store.tickers == store.tickers
    ensures r.store.refresh.ticker24LastUpdate == store.refresh.ticker24LastUpdate
    ensures r.store.refresh.exchangeInfoLastUpdate >= store.refresh.exchangeInfoLastUpdate
    ensures !IsStale(store.refresh.exchangeInfoLastUpdate, now, EXCHANGE_INFO_UPDATE_MS) ==>
      r == Served(store, Ok(()))
    ensures IsStale(store.refresh.exchangeInfoLastUpdate, now, EXCHANGE_INFO_UPDATE_MS) ==>
      && r.store.refresh.exchangeInfoLastUpdate == now
      && (remote.Err? ==> r.answer == Err(remote.error) && r.store.symbols == store.symbols)
      && (remote.Ok? ==> r.answer.Ok? && r.store.symbols == ExchangeStorage.UpdateExchangeInfo(store.symbols, remote.value))
  {
    var last := store.refresh.exchangeInfoLastUpdate;
    if IsStale(last, now, EXCHANGE_INFO_UPDATE_MS) then
      var marked := store.(refresh := store.refresh.(exchangeInfoLastUpdate := Mark(last, now, EXCHANGE_INFO_UPDATE_MS)));
      match remote
      case Err(e) => Served(marked, Err(e))
      case Ok(info) => Served(marked.(symbols := ExchangeStorage.UpdateExchangeInfo(marked.symbols, info)), Ok(()))
    else
      Served(store, Ok(()))
  }
}
