/** Properties of the local store that relate several of its operations. */
module StorageProperties {
  import opened Ordering
  import opened Keyed
  import opened Records
  import opened Text
  import opened ExchangeStorage

  /** The open times of a bar sequence, in sequence order. */
  function Times(r: seq<Bar>): seq<int>
  {
    seq(|r|, i requires 0 <= i < |r| => r[i].openTime)
  }

  lemma SeriesViewTimes(t: KlineTable, symbol: string, interval: string, r: seq<Bar>)
    requires ValidKlines(t) && IsSeriesView(t, symbol, interval, r)
    ensures Ascending(Times(r))
    ensures forall x :: x in Times(r) <==> BarKey(symbol, interval, x) in t
  {
    var ts := Times(r);
    forall x | x in ts
      ensures BarKey(symbol, interval, x) in t
    {
      var i :| 0 <= i < |ts| && ts[i] == x;
      assert KeyOf(r[i]) == BarKey(symbol, interval, x);
    }
    forall x | BarKey(symbol, interval, x) in t
      ensures x in ts
    {
      var k := BarKey(symbol, interval, x);
      assert t[k] in r;
      var i :| 0 <= i < |r| && r[i] == t[k];
      assert ts[i] == x;
    }
  }

  /** The ordered kline query has exactly one possible answer: any sequence
      listing every stored bar of the series once, ascending by open time,
      is the one `GetKlines` returns. */
  lemma {:induction false} SeriesViewIsGetKlines(t: KlineTable, symbol: string, interval: string, r: seq<Bar>)
    requires ValidKlines(t)
    requires IsSeriesView(t, symbol, interval, r)
    ensures r == GetKlines(t, symbol, interval)
  {
    var g := GetKlines(t, symbol, interval);
    SeriesViewTimes(t, symbol, interval, r);
    SeriesViewTimes(t, symbol, interval, g);
    AscendingUnique(Times(r), Times(g));
    assert |r| == |Times(r)| == |Times(g)| == |g|;
    forall i | 0 <= i < |r|
      ensures r[i] == g[i]
    {
      assert Times(r)[i] == Times(g)[i];
      assert KeyOf(r[i]) == KeyOf(g[i]);
    }
  }

  /** The tail of the loaded series is the latest stored bar of the series,
      so the open-bar test compares the remote tail with the newest bar. */
  lemma {:induction false} LoadedTailIsLatest(t: KlineTable, symbol: string, interval: string, loaded: seq<Bar>)
    requires ValidKlines(t)
    requires IsSeriesView(t, symbol, interval, loaded) && loaded != []
    ensures forall k :: k in t && k.symbol == symbol && k.interval == interval ==>
      k.openTime <= loaded[|loaded| - 1].openTime
  {
    var n := |loaded| - 1;
    forall k | k in t && k.symbol == symbol && k.interval == interval
      ensures k.openTime <= loaded[n].openTime
    {
      assert t[k] in loaded;
      var i :| 0 <= i < |loaded| && loaded[i] == t[k];
      assert KeyOf(t[k]) == k;
      if i < n {
        assert loaded[i].openTime < loaded[n].openTime;
      }
    }
  }

  /** The open-bar test on a loaded series succeeds exactly when the remote
      bar opens at the newest open time stored for the series. */
  lemma {:induction false} StillOpenIffNewest(t: KlineTable, symbol: string, interval: string,
                                              loaded: seq<Bar>, remoteTail: Bar)
    requires ValidKlines(t) && IsSeriesView(t, symbol, interval, loaded)
    ensures IsTheLastBarStillOpen(loaded, remoteTail) <==>
      && BarKey(symbol, interval, remoteTail.openTime) in t
      && (forall k :: k in t && k.symbol == symbol && k.interval == interval ==> k.openTime <= remoteTail.openTime)
  {
    var rk := BarKey(symbol, interval, remoteTail.openTime);
    if loaded != [] {
      LoadedTailIsLatest(t, symbol, interval, loaded);
      var tail := loaded[|loaded| - 1];
      assert KeyOf(tail) in t;
      if rk in t {
        assert rk.openTime <= tail.openTime;
      }
    }
  }

  /** After a ticker refresh on an honest table, each symbol of the batch is
      read back with the TICKER_COLUMNS values of its last batch row, in the
      full list and, when a quote asset is given, in the filtered list
      exactly when its symbol carries the suffix and its last price is
      positive. */
  lemma {:induction false} TickersReadBack(tt: TickerTable, rows: seq<Ticker>, i: nat, quoteAsset: string)
    requires WellKeyed(tt, TickerKey)
    requires i < |rows| && LastOfKey(rows, i, TickerKey)
    ensures var r := UpdateTickers(tt, rows);
      exists x :: x in GetAllTickers(r) && x.symbol == rows[i].symbol && x.columns == rows[i].columns
    ensures var r := UpdateTickers(tt, rows);
      !IsPhpEmpty(quoteAsset) ==>
        ((exists x :: x in GetTickers(r, quoteAsset) && x.symbol == rows[i].symbol) <==>
           EndsWith(rows[i].symbol, quoteAsset) && rows[i].columns.lastPrice > 0.0)
  {
    var r := UpdateTickers(tt, rows);
    var s := rows[i].symbol;
    assert s in KeysOf(rows, TickerKey);
    var x := r[s];
    assert x.symbol == s;
    assert x in GetAllTickers(r);
    if !IsPhpEmpty(quoteAsset) {
      if y :| y in GetTickers(r, quoteAsset) && y.symbol == s {
        var k :| k in r && r[k] == y;
        assert k == s;
      }
      if EndsWith(s, quoteAsset) && rows[i].columns.lastPrice > 0.0 {
        assert x in GetTickers(r, quoteAsset);
      }
    }
  }

  /** Upserting the same fetched klines twice leaves the table as once. */
  lemma UpdateMissingKlinesIdempotent(t: KlineTable, bars: seq<Bar>)
    ensures UpdateMissingKlines(UpdateMissingKlines(t, bars), bars) == UpdateMissingKlines(t, bars)
  {
    UpsertAllIdempotent(t, bars, KeyOf);
  }

  /** Refreshing the tickers twice with the same batch leaves the table as
      refreshing once. */
  lemma {:induction false} UpdateTickersIdempotent(tt: TickerTable, rows: seq<Ticker>)
    ensures UpdateTickers(UpdateTickers(tt, rows), rows) == UpdateTickers(tt, rows)
  {
    var once := UpdateTickers(tt, rows);
    var twice := UpdateTickers(once, rows);
    forall s | s in once
      ensures s in twice && twice[s] == once[s]
    {
      RefreshedTwiceAgrees(tt, rows, s);
    }
    SameEntriesSameMap(twice, once);
  }

  lemma SameEntriesSameMap<K, V>(a: map<K, V>, b: map<K, V>)
    requires a.Keys == b.Keys
    requires forall k :: k in b ==> a[k] == b[k]
    ensures a == b
  {
  }

  /** A symbol refreshed once reads the same after a second refresh. */
  lemma RefreshedTwiceAgrees(tt: TickerTable, rows: seq<Ticker>, s: string)
    requires s in UpdateTickers(tt, rows)
    ensures var once := UpdateTickers(tt, rows);
      s in UpdateTickers(once, rows) && UpdateTickers(once, rows)[s] == once[s]
  {
    var once := UpdateTickers(tt, rows);
    var twice := UpdateTickers(once, rows);
    assert IsTickerRefresh(tt, rows, once) && IsTickerRefresh(once, rows, twice);
    if s !in KeysOf(rows, TickerKey) {
      return;
    }
    LastOfKeyExists(rows, TickerKey, s);
    var i :| 0 <= i < |rows| && TickerKey(rows[i]) == s && LastOfKey(rows, i, TickerKey);
    var a, b := twice[s], once[s];
    assert a.columns == rows[i].columns == b.columns;
    assert a.symbol == b.symbol && a.other == b.other;
  }

  /** After the symbols are refreshed from an exchange-info payload, reading
      a listed symbol back (its last entry in the payload) yields its
      projection: the first PRICE_FILTER's minimum price, and membership of
      the trading list exactly when its status and quote asset match. */
  lemma {:induction false} ExchangeInfoReadBack(st: SymbolTable, info: ExchangeInfo, i: nat, quoteAsset: string)
    requires WellKeyed(st, SymbolKey)
    requires i < |info.symbols|
    requires forall j :: i < j < |info.symbols| ==> info.symbols[j].symbol != info.symbols[i].symbol
    ensures var st' := UpdateExchangeInfo(st, info);
      var entry := info.symbols[i];
      && GetSymbolMinPrice(st', entry.symbol) == MinPrice(entry.filters)
      && (entry.symbol in GetSymbols(st', quoteAsset) <==>
            entry.status == "TRADING" && (IsPhpEmpty(quoteAsset) || entry.quoteAsset == quoteAsset))
  {
    var rows := ExtractSymbols(info);
    var st' := UpdateExchangeInfo(st, info);
    var entry := info.symbols[i];
    assert LastOfKey(rows, i, SymbolKey);
    assert st'[entry.symbol] == ProjectSymbol(entry);
    var row := st'[entry.symbol];
    assert row in st'.Values;
    if entry.symbol in GetSymbols(st', quoteAsset) {
      var other :| other in st'.Values && other.symbol == entry.symbol
        && other.status == "TRADING" && (IsPhpEmpty(quoteAsset) || other.quoteAsset == quoteAsset);
      var k :| k in st' && st'[k] == other;
      assert k == entry.symbol;
    }
  }

  /** The comma-joined order types and permissions of a projected symbol row
      split back into the payload's lists, when those lists are non-empty
      and their entries hold no comma. */
  lemma ProjectedListsRoundTrip(info: SymbolInfo)
    requires |info.orderTypes| >= 1 && |info.permissions| >= 1
    requires forall i :: 0 <= i < |info.orderTypes| ==> ',' !in info.orderTypes[i]
    requires forall i :: 0 <= i < |info.permissions| ==> ',' !in info.permissions[i]
    ensures Split(ProjectSymbol(info).orderTypes) == info.orderTypes
    ensures Split(ProjectSymbol(info).permissions) == info.permissions
  {
    SplitJoin(info.orderTypes);
    SplitJoin(info.permissions);
  }
}
