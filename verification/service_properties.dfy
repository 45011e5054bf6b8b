/** Properties of the exchange service that span several calls or relate an
    answer to what the store holds afterwards. */
module ServiceProperties {
  import opened Results
  import opened Keyed
  import opened Records
  import opened ExchangeStorage
  import opened StorageProperties
  import opened ExchangeService

  /** The series with its tail replaced by a bar of the same key is the
      ordered view of the table after that bar is stored. */
  lemma SplicedIsSeriesView(t: KlineTable, symbol: string, interval: string, loaded: seq<Bar>, tail: Bar)
    requires ValidKlines(t)
    requires IsSeriesView(t, symbol, interval, loaded) && loaded != []
    requires KeyOf(tail) == KeyOf(loaded[|loaded| - 1])
    ensures IsSeriesView(t[KeyOf(tail) := tail], symbol, interval, loaded[..|loaded| - 1] + [tail])
  {
    var n := |loaded| - 1;
    var t' := t[KeyOf(tail) := tail];
    var spliced := loaded[..n] + [tail];
    SplicedElements(t, symbol, interval, loaded, tail);
    forall k | k in t' && k.symbol == symbol && k.interval == interval
      ensures t'[k] in spliced
    {
      if k == KeyOf(tail) {
        assert spliced[n] == t'[k];
      } else {
        assert t[k] in loaded;
        var i :| 0 <= i < |loaded| && loaded[i] == t[k];
        assert KeyOf(t[k]) == k;
        assert i != n;
        assert spliced[i] == t'[k];
      }
    }
  }

  lemma SplicedElements(t: KlineTable, symbol: string, interval: string, loaded: seq<Bar>, tail: Bar)
    requires ValidKlines(t)
    requires IsSeriesView(t, symbol, interval, loaded) && loaded != []
    requires KeyOf(tail) == KeyOf(loaded[|loaded| - 1])
    ensures var spliced := loaded[..|loaded| - 1] + [tail];
      forall i :: 0 <= i < |spliced| ==> spliced[i].openTime == loaded[i].openTime
    ensures var spliced := loaded[..|loaded| - 1] + [tail];
      var t' := t[KeyOf(tail) := tail];
      forall i :: 0 <= i < |spliced| ==>
        spliced[i].symbol == symbol && spliced[i].interval == interval
        && KeyOf(spliced[i]) in t' && t'[KeyOf(spliced[i])] == spliced[i]
  {
    var n := |loaded| - 1;
    var t' := t[KeyOf(tail) := tail];
    var spliced := loaded[..n] + [tail];
    forall i | 0 <= i < n
      ensures KeyOf(spliced[i]) != KeyOf(tail)
    {
      assert spliced[i] == loaded[i];
      assert loaded[i].openTime < loaded[n].openTime;
    }
  }

  lemma UpdateLastBarStores(t: KlineTable, loaded: seq<Bar>, tail: Bar)
    requires loaded != []
    ensures UpdateLastBar(t, loaded, tail) == t[KeyOf(tail) := tail]
  {
    var t' := UpdateLastBar(t, loaded, tail);
    assert t'.Keys == t[KeyOf(tail) := tail].Keys;
  }

  /** On the tail-still-open path the spliced answer is exactly what a fresh
      read of the store returns afterwards, provided the remote tail belongs
      to the requested series: replacing the last element in memory and
      upserting the bar agree. */
  lemma {:induction false} SpliceAgreesWithStore(store: Store, symbol: string, interval: string,
                                                 timeframes: map<string, int>, tail: Bar,
                                                 fetch: KlineRequest -> Result<seq<Bar>>)
    requires ValidKlines(store.klines)
    requires GetKlines(store.klines, symbol, interval) != []
    requires tail.symbol == symbol && tail.interval == interval
    requires var loaded := GetKlines(store.klines, symbol, interval);
      tail.openTime == loaded[|loaded| - 1].openTime
    ensures var r := GetKlineData(store, symbol, interval, timeframes, Ok(tail), fetch);
      r.answer == Ok(GetKlines(r.store.klines, symbol, interval))
  {
    var t := store.klines;
    var loaded := GetKlines(t, symbol, interval);
    var n := |loaded| - 1;
    assert KeyOf(tail) == KeyOf(loaded[n]);
    var r := GetKlineData(store, symbol, interval, timeframes, Ok(tail), fetch);
    assert r == SpliceTail(store, loaded, tail);
    UpdateLastBarStores(t, loaded, tail);
    assert r.store.klines == t[KeyOf(tail) := tail];
    SplicedIsSeriesView(t, symbol, interval, loaded, tail);
    SeriesViewIsGetKlines(r.store.klines, symbol, interval, loaded[..n] + [tail]);
  }

  /** On the empty-store path, when the exchange returns an ascending page of
      the requested series, a later read of the store returns exactly that
      page. */
  lemma {:induction false} EmptyPathReadBack(store: Store, symbol: string, interval: string,
                                             timeframes: map<string, int>, tail: Bar,
                                             fetch: KlineRequest -> Result<seq<Bar>>)
    requires ValidKlines(store.klines)
    requires GetKlines(store.klines, symbol, interval) == []
    requires fetch(LatestPage(symbol, interval)).Ok?
    requires var page := fetch(LatestPage(symbol, interval)).value;
      && (forall i :: 0 <= i < |page| ==> page[i].symbol == symbol && page[i].interval == interval)
      && (forall i, j :: 0 <= i < j < |page| ==> page[i].openTime < page[j].openTime)
    ensures var r := GetKlineData(store, symbol, interval, timeframes, Ok(tail), fetch);
      && r.answer == Ok(fetch(LatestPage(symbol, interval)).value)
      && GetKlines(r.store.klines, symbol, interval) == r.answer.value
  {
    var t := store.klines;
    var page := fetch(LatestPage(symbol, interval)).value;
    assert OpenTimes(t, symbol, interval) == {};
    forall i | 0 <= i < |page|
      ensures KeyOf(page[i]) !in t
    {
      assert page[i].openTime !in OpenTimes(t, symbol, interval);
    }
    forall i, j | 0 <= i < j < |page|
      ensures KeyOf(page[i]) != KeyOf(page[j])
    {
      assert page[i].openTime < page[j].openTime;
    }
    assert Fresh(t, page, KeyOf);
    var r := GetKlineData(store, symbol, interval, timeframes, Ok(tail), fetch);
    var t' := r.store.klines;
    forall k | k in t' && k.symbol == symbol && k.interval == interval
      ensures t'[k] in page
    {
      assert k !in t by {
        assert k.openTime !in OpenTimes(t, symbol, interval);
        assert k == BarKey(symbol, interval, k.openTime);
      }
      assert k in KeysOf(page, KeyOf);
      var i :| 0 <= i < |page| && KeyOf(page[i]) == k;
      assert t'[k] == page[i];
    }
    assert IsSeriesView(t', symbol, interval, page);
    SeriesViewIsGetKlines(t', symbol, interval, page);
  }

  /** The gap path never loses a stored bar of the series: after a
      successful backfill every open time stored before is still answered. */
  lemma {:induction false} BackfillKeepsHistory(store: Store, symbol: string, interval: string, loaded: seq<Bar>,
                                                tail: Bar, timeframes: map<string, int>,
                                                fetch: KlineRequest -> Result<seq<Bar>>)
    requires ValidKlines(store.klines)
    requires IsSeriesView(store.klines, symbol, interval, loaded) && loaded != []
    requires interval in timeframes
    requires fetch(GapRequest(symbol, interval, loaded, tail, timeframes).value).Ok?
    ensures Backfill(store, symbol, interval, loaded, tail, timeframes, fetch).answer.Ok?
    ensures var answer := Backfill(store, symbol, interval, loaded, tail, timeframes, fetch).answer.value;
      forall i :: 0 <= i < |loaded| ==>
        exists j :: 0 <= j < |answer| && answer[j].openTime == loaded[i].openTime
  {
    var r := Backfill(store, symbol, interval, loaded, tail, timeframes, fetch);
    var t' := r.store.klines;
    var answer := r.answer.value;
    assert answer == GetKlines(t', symbol, interval);
    forall i | 0 <= i < |loaded|
      ensures exists j :: 0 <= j < |answer| && answer[j].openTime == loaded[i].openTime
    {
      var k := KeyOf(loaded[i]);
      assert k in t';
      assert t'[k] in answer;
      var j :| 0 <= j < |answer| && answer[j] == t'[k];
      assert KeyOf(t'[k]) == k;
    }
  }

  /** Every bar of the fetched gap page that belongs to the series, in its
      last copy within the page, is part of the backfill's answer unchanged. */
  lemma {:induction false} BackfillAnswersFetched(store: Store, symbol: string, interval: string, loaded: seq<Bar>,
                                                  tail: Bar, timeframes: map<string, int>,
                                                  fetch: KlineRequest -> Result<seq<Bar>>, page: seq<Bar>, i: nat)
    requires ValidKlines(store.klines)
    requires loaded != [] && interval in timeframes
    requires fetch(GapRequest(symbol, interval, loaded, tail, timeframes).value) == Ok(page)
    requires i < |page| && page[i].symbol == symbol && page[i].interval == interval
    requires LastOfKey(page, i, KeyOf)
    ensures var r := Backfill(store, symbol, interval, loaded, tail, timeframes, fetch);
      r.answer.Ok? && page[i] in r.answer.value
  {
    var r := Backfill(store, symbol, interval, loaded, tail, timeframes, fetch);
    var t' := r.store.klines;
    assert t'[KeyOf(page[i])] == page[i];
    assert t'[KeyOf(page[i])] in r.answer.value;
  }

  /** Once the ticker gate has refreshed at `now` (whether or not the fetch
      then succeeded), a call less than a minute later does not refresh: it
      changes nothing and serves the local table. */
  lemma TickerGateDebounces(store: Store, now: int, remote: Result<seq<Ticker>>, quoteAsset: string,
                            later: int, remote2: Result<seq<Ticker>>, quoteAsset2: string)
    requires IsStale(store.refresh.ticker24LastUpdate, now, TICKER24_UPDATE_MS)
    requires later - now <= TICKER24_UPDATE_MS
    ensures var s1 := GetTicker24h(store, now, remote, quoteAsset).store;
      GetTicker24h(s1, later, remote2, quoteAsset2) == Served(s1, Ok(ReadTickers(s1.tickers, quoteAsset2)))
  {
  }

  /** The same for the exchange-info gate, with its two-minute threshold. */
  lemma ExchangeInfoGateDebounces(store: Store, now: int, remote: Result<ExchangeInfo>,
                                  later: int, remote2: Result<ExchangeInfo>)
    requires IsStale(store.refresh.exchangeInfoLastUpdate, now, EXCHANGE_INFO_UPDATE_MS)
    requires later - now <= EXCHANGE_INFO_UPDATE_MS
    ensures var s1 := ExchangeService.UpdateExchangeInfo(store, now, remote).store;
      ExchangeService.UpdateExchangeInfo(s1, later, remote2) == Served(s1, Ok(()))
  {
  }
}
