/** The rows the exchange storage keeps and the raw exchange-info records it
    projects.  Decimal quantities are exact reals; nothing here rounds. */
module Records {

  /** Identity of a kline bar: the unique index of the kline table. */
  datatype BarKey = BarKey(symbol: string, interval: string, openTime: int)

  /** One kline (candlestick) bar.  Times are millisecond epochs. */
  datatype Bar = Bar(
    symbol: string,
    interval: string,
    openTime: int,
    closeTime: int,
    open: real,
    high: real,
    low: real,
    close: real,
    volume: real)

  function KeyOf(b: Bar): BarKey
  {
    BarKey(b.symbol, b.interval, b.openTime)
  }

  /** The columns an existing ticker row takes over from a refreshed one
      (the storage's TICKER_COLUMNS list). */
  datatype TickerColumns = TickerColumns(
    priceChange: real,
    priceChangePercent: real,
    lastPrice: real,
    open: real,
    high: real,
    low: real,
    volume: real,
    quoteVolume: real,
    openTime: int,
    closeTime: int)

  /** A 24h ticker row, unique on `symbol`.  `other` holds the values of any
      further columns the incoming record carries: they are written when the
      row is first inserted and never overwritten afterwards. */
  datatype Ticker = Ticker(symbol: string, columns: TickerColumns, other: map<string, string>)

  function TickerKey(t: Ticker): string
  {
    t.symbol
  }

  /** One entry of a symbol's `filters` list in the exchange-info payload;
      of its parameters only `minPrice` is ever read. */
  datatype Filter = Filter(filterType: string, minPrice: string)

  /** One entry of the exchange-info payload's `symbols` list. */
  datatype SymbolInfo = SymbolInfo(
    symbol: string,
    status: string,
    baseAsset: string,
    baseAssetPrecision: int,
    quoteAsset: string,
    filters: seq<Filter>,
    orderTypes: seq<string>,
    permissions: seq<string>)

  /** The exchange-info payload.  An empty, falsy or non-list `symbols`
      value is the empty sequence. */
  datatype ExchangeInfo = ExchangeInfo(symbols: seq<SymbolInfo>)

  /** A row of the symbols table, unique on `symbol`. */
  datatype SymbolRow = SymbolRow(
    symbol: string,
    status: string,
    baseAsset: string,
    baseAssetPrecision: int,
    quoteAsset: string,
    minPrice: string,
    orderTypes: string,
    permissions: string)

  function SymbolKey(r: SymbolRow): string
  {
    r.symbol
  }
}
