/** How the three workers agree on names: the coordinator's table list, the persistence worker's
    key list and the ingestors' write keys are all `base:quote:side`, so every key an ingestor
    writes has a `raw` and an `m1` table, and one instrument's events never reach another's sets. */
module Pipeline {
  import opened Common
  import opened Cache
  import opened Database
  import Index
  import Persist
  import Tickers

  /** The table list built in `initTickersTables` is `generateTableNames`, element for element. */
  lemma TableListAgrees(tickers: seq<Index.Ticker>)
    ensures Index.TableList(tickers) == Persist.GenerateTableNames(tickers)
  {
    var a, b := Index.TableList(tickers), Persist.GenerateTableNames(tickers);
    assert |a| == |b|;
    forall k | 0 <= k < |a| ensures a[k] == b[k] {
      if k >= |tickers| {
        assert a[|tickers| + (k - |tickers|)] == b[|tickers| + (k - |tickers|)];
      }
    }
  }

  /** An ingestor for ticker `i` writes its bids to the `i`-th generated key and its asks to the
      `(n + i)`-th, so both are among the tables the persistence worker drains. */
  lemma IngestorKeysAreTables(tickers: seq<Index.Ticker>, i: nat, limits: Tickers.Level2Update)
    requires i < |tickers|
    requires limits.base == tickers[i].base && limits.quote == tickers[i].quote
    ensures Key(limits.base, limits.quote, "bid") == Persist.GenerateTableNames(tickers)[i]
    ensures Key(limits.base, limits.quote, "ask") == Persist.GenerateTableNames(tickers)[|tickers| + i]
    ensures Key(limits.base, limits.quote, "bid") in Persist.GenerateTableNames(tickers)
    ensures Key(limits.base, limits.quote, "ask") in Persist.GenerateTableNames(tickers)
  {
  }

  /** For a single ticker the generated keys are exactly that ticker's bid key and ask key. */
  lemma SingleTickerKeys(ticker: Index.Ticker, limits: Tickers.Level2Update)
    requires limits.base == ticker.base && limits.quote == ticker.quote
    ensures Persist.GenerateTableNames([ticker]) == [Key(limits.base, limits.quote, "bid"), Key(limits.base, limits.quote, "ask")]
  {
    var keys := Persist.GenerateTableNames([ticker]);
    assert keys[0] == Key(limits.base, limits.quote, "bid");
    assert keys[1 + 0] == Key(limits.base, limits.quote, "ask");
  }

  /** Every drained key has a table in both schemas among the startup statements. */
  lemma StartupCoversEveryKey(tickers: seq<Index.Ticker>, k: string)
    requires k in Persist.GenerateTableNames(tickers)
    ensures TableId("raw", k) in Index.CreateStatements(tickers)
    ensures TableId("m1", k) in Index.CreateStatements(tickers)
  {
    TableListAgrees(tickers);
    var tables := Index.TableList(tickers);
    var ids := Index.CreateStatements(tickers);
    var j :| 0 <= j < |tables| && tables[j] == k;
    assert ids[j] == TableId("raw", k);
    assert ids[2 * |tickers| + j] == TableId("m1", k);
  }

  /** With distinct keys, an event for ticker `i` leaves both sorted sets of every other ticker as they were. */
  lemma OtherTickersUntouched(s: Sets, tickers: seq<Index.Ticker>, i: nat, j: nat,
                              limits: Tickers.Level2Update, num: string -> real)
    requires i < |tickers| && j < |tickers| && i != j
    requires limits.base == tickers[i].base && limits.quote == tickers[i].quote
    requires forall a, b :: 0 <= a < b < |Persist.GenerateTableNames(tickers)| ==>
      Persist.GenerateTableNames(tickers)[a] != Persist.GenerateTableNames(tickers)[b]
    ensures var after := ApplyAll(s, Tickers.UpdateCommands(limits, num));
      var keys := Persist.GenerateTableNames(tickers);
      && Levels(after, keys[j]) == Levels(s, keys[j])
      && Levels(after, keys[|tickers| + j]) == Levels(s, keys[|tickers| + j])
  {
    var keys := Persist.GenerateTableNames(tickers);
    OtherTickerKeysDiffer(tickers, i, j, limits);
    Tickers.UpdateIsolation(s, limits, num, keys[j]);
    Tickers.UpdateIsolation(s, limits, num, keys[|tickers| + j]);
  }

  /** Helper: with distinct keys, ticker `j`'s two keys are neither of ticker `i`'s write keys. */
  lemma OtherTickerKeysDiffer(tickers: seq<Index.Ticker>, i: nat, j: nat, limits: Tickers.Level2Update)
    requires i < |tickers| && j < |tickers| && i != j
    requires limits.base == tickers[i].base && limits.quote == tickers[i].quote
    requires forall a, b :: 0 <= a < b < |Persist.GenerateTableNames(tickers)| ==>
      Persist.GenerateTableNames(tickers)[a] != Persist.GenerateTableNames(tickers)[b]
    ensures var keys := Persist.GenerateTableNames(tickers);
      && keys[j] != Key(limits.base, limits.quote, "bid") && keys[j] != Key(limits.base, limits.quote, "ask")
      && keys[|tickers| + j] != Key(limits.base, limits.quote, "bid") && keys[|tickers| + j] != Key(limits.base, limits.quote, "ask")
  {
    var keys := Persist.GenerateTableNames(tickers);
    var n := |tickers|;
    IngestorKeysAreTables(tickers, i, limits);
    DistinctAt(keys, j, i);
    DistinctAt(keys, j, n + i);
    DistinctAt(keys, n + j, i);
    DistinctAt(keys, n + j, n + i);
  }

  /** Helper: two positions of a list without repeats hold different elements. */
  lemma DistinctAt(keys: seq<string>, a: nat, b: nat)
    requires forall x, y :: 0 <= x < y < |keys| ==> keys[x] != keys[y]
    requires a < |keys| && b < |keys| && a != b
    ensures keys[a] != keys[b]
  {
  }

  /** One drain tick (the one-second timer's body): snapshot every tracked key, then insert each
      snapshot into its `raw` table stamped with the tick's `date`. */
  method DrainTick(redis: Client, connection: Pool, tickers: seq<Index.Ticker>, date: int, num: string -> real)
    returns (tickersData: seq<Persist.TickerData>)
    modifies connection
    ensures |tickersData| == |Persist.GenerateTableNames(tickers)|
    ensures forall i :: 0 <= i < |tickersData| ==>
      tickersData[i].name == Persist.GenerateTableNames(tickers)[i] &&
      IsSnapshotOf(tickersData[i].data, Levels(redis.sets, tickersData[i].name))
    ensures connection.tables == AppendEach(old(connection.tables), Persist.RawWrites(tickersData, date, num))
  {
    tickersData := Persist.ExtractTickerData(redis, tickers);
    Persist.StoreTickers(connection, tickersData, date, num);
  }
}
