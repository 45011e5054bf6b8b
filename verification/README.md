# Exchange market-data mirror: kline reconciliation, staleness gates, local store

This project is a Dafny model of the market-data core of a Laravel trading
application. The application keeps a local, database-backed mirror of an
exchange's kline (candlestick) bars, 24h tickers and symbol metadata.

* **Kline reconciliation** (`ExchangeService::getKlineData`). The service reads
  the remote tail bar and the stored series for a (symbol, interval) and takes
  one of three paths:
  * the store is empty: fetch the default page, insert it and answer it;
  * the stored tail is still open (same open time): upsert the remote bar and
    answer the stored series with its last bar replaced;
  * there is a gap: fetch the range from two intervals before the stored tail
    up to the remote tail (at most 1000 bars), upsert it, and answer the
    series re-read from the store.
* **Staleness gates** (`getTicker24h`, `updateExchangeInfo`). A cache is
  refreshed only when `now - last > threshold` (60 000 ms for tickers,
  120 000 ms for exchange info). The new timestamp is written before the
  remote fetch, so a failed fetch still counts as a refresh. Tickers are
  always served from the local table.
* **The local store** (`ExchangeStorage`). It provides:
  * ordered kline queries;
  * the tail-bar helpers;
  * plain insert versus key-based upsert (bars keyed on
    (symbol, interval, open_time), tickers and symbols keyed on symbol);
  * on a ticker conflict, only the TICKER_COLUMNS fields are overwritten;
  * the projection of exchange-info entries into symbol rows;
  * filtered reads of symbols and tickers.

Each table is a map from its unique key to its row (`Keyed`). `WellKeyed`
says every row sits under its own key, so "at most one bar per key" holds by
construction and every write preserves it. Remote calls are inputs:
* the remote tail bar and the ticker and exchange-info payloads are `Result`
  values;
* the kline page fetch is a function from the request to its outcome, so the
  request the service makes (start, end, limit) is part of the contracts.

The clock is the `now` argument. Each service call returns a `Served` value:
the store after the call, plus the answer or the failure.

Files, in dependency order:
* `results.dfy`: failures, `Option` and `Result`;
* `ordering.dfy`: ascending order, and sorting a set of open times;
* `keyed.dfy`: generic upsert and insert over a uniquely keyed table;
* `records.dfy`: bars, tickers, symbol rows and exchange-info entries;
* `text.dfy`: PHP emptiness, suffix test, `implode`/`explode` on commas;
* `exchange_storage.dfy`: the storage layer;
* `storage_properties.dfy`: lemmas about the storage layer;
* `exchange_service.dfy`: reconciliation and the gates;
* `service_properties.dfy`: lemmas about the service.

On these points the model follows the code exactly:
* `getSymbols` selects only the `symbol` column, so the model returns symbol
  names, not whole rows.
* The interval's duration is looked up only when a series is loaded.
  `getMissingKlinesStartTime` returns 0 on an empty series without consulting
  the table.
* The open-bar test compares open times only (PHP `==` on integers). It does
  not check the symbol or interval of the remote bar.
* `!empty($quoteAsset)` and `if ($quoteAsset)` treat `"0"` like `""`. A quote
  asset of `"0"` therefore means "no filter" (`Text.IsPhpEmpty`).
* The gap path fetches one page of at most 1000 bars. No contiguity of the
  stored series is claimed: the storage does not guarantee it, and a gap wider
  than one page is only closed by later calls.

## Model

| member | source | states |
|---|---|---|
| Keyed.UpsertAll | app/Models/Exchange/Local/ExchangeStorage.php:116-120 | upsert on the unique key: afterwards the keys are the old keys plus the batch's keys; rows under other keys are untouched; each key holds the last batch row carrying it; the one-row-per-key invariant is preserved |
| Keyed.InsertAll | app/Models/Exchange/Local/ExchangeStorage.php:122-126 | a plain insert succeeds exactly when the batch's keys are new to the table and pairwise distinct; otherwise it fails with a duplicate-key error; on success old rows are kept and every batch row is stored under its key |
| Keyed.UpsertAllIdempotent | app/Models/Exchange/Local/ExchangeStorage.php:116-120 | applying the same upsert batch twice leaves the same table as applying it once |
| Keyed.InsertAgreesWithUpsert | app/Models/Exchange/Local/ExchangeStorage.php:122-126 | on a fresh batch the insert succeeds and leaves exactly the table the upsert of that batch would |
| ExchangeStorage.GetKlines | app/Models/Exchange/Local/ExchangeStorage.php:56-68 | the answer lists every stored bar of the (symbol, interval) exactly once, strictly ascending by open time, and nothing else; it is empty exactly when no bar of the series is stored |
| StorageProperties.SeriesViewIsGetKlines | app/Models/Exchange/Local/ExchangeStorage.php:56-68 | the ordered query has a single possible answer: any sequence with those properties equals the one GetKlines returns |
| ExchangeStorage.GetLastBar | app/Models/Exchange/Local/ExchangeStorage.php:79-85 | nothing when no series is loaded, otherwise the last loaded bar |
| StorageProperties.LoadedTailIsLatest | app/Models/Exchange/Local/ExchangeStorage.php:70-85 | in any non-empty ordered view of a series, the tail has the greatest stored open time of the series, so the open-bar test compares the remote bar with the newest stored bar |
| ExchangeStorage.GetMissingKlinesStartTime | app/Models/Exchange/Local/ExchangeStorage.php:87-100 | 0 when no series is loaded; an unknown-interval error when the interval has no duration in the timeframe table; otherwise the tail's open time minus two interval durations |
| ExchangeStorage.UpdateLastBar | app/Models/Exchange/Local/ExchangeStorage.php:102-114 | no change when no series is loaded; otherwise the remote bar is stored under its (symbol, interval, open_time) key and every other key is unchanged |
| ExchangeStorage.UpdateMissingKlines | app/Models/Exchange/Local/ExchangeStorage.php:116-120 | fetched bars are upserted: old keys plus fetched keys; unfetched bars untouched; the last copy of each fetched key stored; the unique index preserved |
| StorageProperties.UpdateMissingKlinesIdempotent | app/Models/Exchange/Local/ExchangeStorage.php:116-120 | re-applying the same fetched page changes nothing, so overlapping backfills are harmless |
| ExchangeStorage.CreateNewKlines | app/Models/Exchange/Local/ExchangeStorage.php:122-126 | the insert fails with a duplicate-key error exactly when a new bar's key is already stored or repeated in the batch; otherwise every new bar is stored and old bars are kept |
| ExchangeStorage.UpsertTicker | app/Models/Exchange/Local/ExchangeStorage.php:19-34 | a new symbol's row is inserted exactly as given; an existing row keeps its symbol and its non-TICKER_COLUMNS values and takes the incoming TICKER_COLUMNS values; other rows are unchanged |
| ExchangeStorage.UpdateTickers | app/Models/Exchange/Local/ExchangeStorage.php:19-34 | batch ticker upsert on symbol: keys grow by the batch's symbols; untouched symbols unchanged; existing rows keep their symbol and non-TICKER_COLUMNS values; a new symbol keeps the non-TICKER_COLUMNS values of its first batch row; each symbol's columns come from its last batch row |
| StorageProperties.UpdateTickersIdempotent | app/Models/Exchange/Local/ExchangeStorage.php:31-34 | refreshing the tickers twice with the same batch leaves the table as refreshing once |
| StorageProperties.StillOpenIffNewest | app/Models/Exchange/Local/ExchangeStorage.php:70-77 | on a loaded series view, the open-bar test holds exactly when the remote bar's open time is stored for the series and no stored bar of the series is newer |
| ExchangeStorage.GetAllTickers | app/Models/Exchange/Local/ExchangeStorage.php:36-40 | every stored ticker is returned and nothing that is not stored |
| StorageProperties.TickersReadBack | app/Models/Exchange/Local/ExchangeStorage.php:31-54 | after a refresh each batch symbol is read back with its last row's TICKER_COLUMNS values, and appears in a quote-asset read exactly when its symbol ends with the quote asset and its last price is positive |
| ExchangeStorage.GetTickers | app/Models/Exchange/Local/ExchangeStorage.php:42-54 | only stored tickers are returned; with an empty quote asset all of them; otherwise exactly those whose symbol ends with the quote asset and whose last price is positive |
| ExchangeStorage.MinPrice | app/Models/Exchange/Local/ExchangeStorage.php:188-198 | the minPrice of the first PRICE_FILTER in the list, or "" when the list has none |
| ExchangeStorage.ExtractSymbols | app/Models/Exchange/Local/ExchangeStorage.php:151-170 | one row per listed symbol, in list order, each the projection of its entry |
| Text.SplitJoin | app/Models/Exchange/Local/ExchangeStorage.php:172-186 | joining a non-empty list of comma-free entries with commas and splitting on commas gives the list back |
| StorageProperties.ProjectedListsRoundTrip | app/Models/Exchange/Local/ExchangeStorage.php:172-186 | the serialised order types and permissions of a projected row split back into the payload's lists (when non-empty and comma-free) |
| ExchangeStorage.UpdateExchangeInfo | app/Models/Exchange/Local/ExchangeStorage.php:143-149 | the projected rows are upserted on symbol, replacing whole rows: each payload symbol holds the projection of its last payload entry; symbols not in the payload are unchanged |
| ExchangeStorage.GetSymbols | app/Models/Exchange/Local/ExchangeStorage.php:128-141 | exactly the names of stored rows with status TRADING, and, when a non-empty quote asset is given, that quote asset |
| ExchangeStorage.GetSymbolMinPrice | app/Models/Exchange/Local/ExchangeStorage.php:200-210 | the stored minimum price of the symbol, or "" when the symbol is not stored |
| StorageProperties.ExchangeInfoReadBack | app/Models/Exchange/Local/ExchangeStorage.php:128-198 | after a refresh from a payload, a listed symbol reads back with its first PRICE_FILTER's minimum price; it is in the trading list exactly when its status is TRADING and its quote asset matches the filter |
| ExchangeService.ServeEmpty | app/Services/Exchange/ExchangeService.php:47-51 | empty-store path: a failed fetch is passed through with the store unchanged; a page whose keys collide fails with a duplicate-key error and changes nothing; otherwise the answer is exactly the fetched page and every page bar is stored |
| ServiceProperties.EmptyPathReadBack | app/Services/Exchange/ExchangeService.php:47-51 | when the fetched page is an ascending page of the requested series, reading the store afterwards returns exactly that page |
| ExchangeService.SpliceTail | app/Services/Exchange/ExchangeService.php:36-39 | tail-still-open path: the answer has the loaded length; every element but the last is unchanged; the last is the remote bar; the store gains the remote bar under its key and no other key changes |
| ServiceProperties.SpliceAgreesWithStore | app/Services/Exchange/ExchangeService.php:36-39 | when the remote tail belongs to the series, the spliced answer equals a fresh read of the store after the upsert |
| ExchangeService.GapRequest | app/Services/Exchange/ExchangeService.php:41-43 | the gap request is a range for the same symbol and interval: start = tail open time − 2·duration, end = remote tail open time, limit = 1000; an unknown interval is an error |
| ExchangeService.Backfill | app/Services/Exchange/ExchangeService.php:40-46 | gap path: an unknown interval or a failed fetch leaves the store unchanged and is reported; otherwise the fetched page is upserted and the answer is the series re-read from the updated store |
| ServiceProperties.BackfillKeepsHistory | app/Services/Exchange/ExchangeService.php:40-46 | when the interval is known and the gap fetch succeeds, the backfill succeeds and answers every open time that was stored before it, so no stored bar is lost |
| ServiceProperties.BackfillAnswersFetched | app/Services/Exchange/ExchangeService.php:43-45 | every fetched bar of the series, in its last copy within the page, appears unchanged in the answer |
| ExchangeService.GetKlineData | app/Services/Exchange/ExchangeService.php:31-52 | a failed tail fetch is reported with nothing changed; the path is chosen on: an empty series, an equal tail open time, or otherwise; only the kline table may change; the unique index is preserved |
| ExchangeService.UpdateAndGetLastBar | app/Services/Exchange/ExchangeService.php:157-162 | answers the remote tail bar; stores it under its key only when a series is loaded, leaving every other stored bar unchanged |
| ExchangeService.Mark | app/Services/Exchange/ExchangeService.php:74-75 | the gate's timestamp becomes `now` when the cache is older than the threshold and stays otherwise; it never decreases |
| ExchangeService.ReadTickers | app/Services/Exchange/ExchangeService.php:79-82 | the tickers are read from the local table: all of them for an empty quote asset, otherwise exactly the quoted, positively priced ones |
| ExchangeService.GetTicker24h | app/Services/Exchange/ExchangeService.php:70-83 | refreshes iff now − last > 60 000; a refresh writes `now` even when the fetch then fails; without a refresh nothing changes; after a successful fetch the answer is the local read of the refreshed table; a failed fetch is reported; other tables and the other timestamp are untouched |
| ServiceProperties.TickerGateDebounces | app/Services/Exchange/ExchangeService.php:72-78 | after a refreshing call at `now`, a call at most 60 000 ms later changes nothing and serves the local table, even if the first fetch failed |
| ExchangeService.UpdateExchangeInfo | app/Services/Exchange/ExchangeService.php:141-150 | refreshes iff now − last > 120 000; on refresh the timestamp becomes `now` before the fetch and, on success, the symbols are upserted from the payload; without a refresh store and timestamp are unchanged |
| ServiceProperties.ExchangeInfoGateDebounces | app/Services/Exchange/ExchangeService.php:143-150 | after a refreshing call at `now`, a call at most 120 000 ms later changes nothing |

## Left out

- `calculateOrderQuantity` is not modelled. It works on PHP floats (`log10`, `fmod`, `round`). Its fallbacks return 0 when no symbol matches, when there is no `MARKET_LOT_SIZE` filter, or when the price is not positive.
- Remote exchange calls are not modelled; their results are inputs. This covers `getLastBar`, kline pages, `getTicker24h`, `getExchangeInfo`, orders, balances, leverage, margin type and the listen key, all of which are network I/O.
- The wall clock is not modelled; `now` is a parameter.
- The timeframe table `ExchangeInterface::TIMEFRAMES` is not part of this model. Its contents are a parameter `timeframes: map<string, int>`.
- The storage's "last updated at" accessors (`ExchangeState`) are not part of this model. The two timestamps are fields of `RefreshState`, with whatever value the store holds.
- ExchangeService.ReadTickers: the ORDER BY on a caller-chosen column and direction is not modelled. Reads without an order are unordered, so ticker and symbol reads return sets.
- ExchangeStorage.GetTickers: SQL `LIKE '%' . quote` is modelled as a plain suffix test. `%` and `_` wildcards inside the quote asset and case-insensitive collations are not modelled. The `ORDER BY` clause is also not modelled.
- ExchangeStorage.GetSymbols: the `status`, `quote_asset` comparisons are exact string equality; a case-insensitive table collation is not modelled.
- ExchangeStorage.GetSymbolMinPrice: the `symbol` lookup is exact string equality; a case-insensitive table collation is not modelled.
- Keyed.UpsertAll: a batch that carries one key twice is applied row by row, the later row winning, as MySQL's `INSERT … ON DUPLICATE KEY UPDATE` does. The model assumes that engine; PostgreSQL's `ON CONFLICT` rejects such a batch instead.
- Eloquent builder mechanics are not modelled. The shared builders accumulate `where` clauses across calls; each query here is evaluated afresh over the table.
- The return values of `updateTickers` (an affected-row count) and of the storage's `updateExchangeInfo` are not modelled; the latter returns `ExtractSymbols(info)`.
- `ExchangeService::getSymbols($data)` is not modelled: it does pagination and search through the ORM with a resource wrapper.
- Pure delegations are not modelled: `getAllSymbols`, `getSymbolMinPrice`, `getServerTime`, `getPriceTicker`, `getLastPrice`, `getTimeframes`, `getOpenOrders`, `getAllOrders`, `getOrder`, `placeOrder`, `getBalance`, `getFuturesBalance`, `getMarginTypeAndLeverage`, `setFutures*` and `getListenKey`. The stub `getSymbolInfo` is also left out.
- Records.ExchangeInfo: a payload without a `symbols` key raises an undefined-array-key error in the source; the model's payload always carries the list, so that error is not modelled. A falsy or non-array `symbols` value yields no rows, which the empty sequence models. Missing keys inside an entry (such as a PRICE_FILTER without `minPrice`) are not modelled.
- Decimal prices and volumes are exact reals. Timestamps are unbounded integers; 64-bit overflow of millisecond epochs is out of range in practice.
- Concurrency is not modelled: races between gate callers and parallel upserts. The code holds no locks, and the model has a single caller.
- `UpdateSessionRequest` (a declarative validation rules array) and `PriceWatchService` (a stub that returns 0) are not modelled.
