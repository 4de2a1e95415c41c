/** The persistence worker: every drain tick copies each tracked sorted set into its `raw` table,
    and every aggregation tick stores, per table, the largest size seen at each price in the last
    minute into its `m1` table. */
module Persist {
  import opened Common
  import opened Cache
  import opened Database
  import Index

  const Types := ["bid", "ask"]

  /** `generateTableNames`: every bid key in ticker order, then every ask key, each `base:quote:type`. */
  function GenerateTableNames(tickers: seq<Index.Ticker>): (keys: seq<string>)
    ensures |keys| == 2 * |tickers|
    ensures forall i {:trigger keys[i]} :: 0 <= i < |tickers| ==>
      keys[i] == Key(tickers[i].base, tickers[i].quote, "bid")
    ensures forall i {:trigger keys[i]} :: |tickers| <= i < 2 * |tickers| ==>
      keys[i] == Key(tickers[i - |tickers|].base, tickers[i - |tickers|].quote, "ask")
  {
    var perType := seq(|Types|, j requires 0 <= j < |Types| =>
      seq(|tickers|, i requires 0 <= i < |tickers| =>
        Key(tickers[i].base, tickers[i].quote, Types[j])));
    FlattenTwo(perType);
    Flatten(perType)
  }

  /** A key is generated exactly when it is `base:quote:bid` or `base:quote:ask` of some ticker. */
  lemma TableNameMembership(tickers: seq<Index.Ticker>, k: string)
    ensures k in GenerateTableNames(tickers) <==>
      exists i :: 0 <= i < |tickers| &&
        (k == Key(tickers[i].base, tickers[i].quote, "bid") ||
         k == Key(tickers[i].base, tickers[i].quote, "ask"))
  {
    var keys := GenerateTableNames(tickers);
    var n := |tickers|;
    if k in keys {
      var j :| 0 <= j < |keys| && keys[j] == k;
      var i := if j < n then j else j - n;
      assert k == Key(tickers[i].base, tickers[i].quote, "bid") || k == Key(tickers[i].base, tickers[i].quote, "ask");
    }
    forall i | 0 <= i < n
      ensures Key(tickers[i].base, tickers[i].quote, "bid") in keys && Key(tickers[i].base, tickers[i].quote, "ask") in keys
    {
      assert keys[i] == Key(tickers[i].base, tickers[i].quote, "bid");
      assert keys[n + i] == Key(tickers[i].base, tickers[i].quote, "ask");
    }
  }

  /** What `extractTickerData` returns per key: the key and the set's full contents. */
  datatype TickerData = TickerData(name: string, data: seq<Entry>)

  /** `extractTickerData`: one entry per generated key, in key order, each a snapshot of that key. */
  method ExtractTickerData(redis: Client, tickers: seq<Index.Ticker>) returns (tickersData: seq<TickerData>)
    ensures |tickersData| == |GenerateTableNames(tickers)|
    ensures forall i :: 0 <= i < |tickersData| ==>
      tickersData[i].name == GenerateTableNames(tickers)[i] &&
      IsSnapshotOf(tickersData[i].data, Levels(redis.sets, tickersData[i].name))
  {
    var keys := GenerateTableNames(tickers);
    tickersData := [];
    for i := 0 to |keys|
      invariant |tickersData| == i
      invariant forall k :: 0 <= k < i ==>
        tickersData[k].name == keys[k] && IsSnapshotOf(tickersData[k].data, Levels(redis.sets, keys[k]))
    {
      var data := redis.RangeWithScores(keys[i]);
      tickersData := tickersData + [TickerData(keys[i], data)];
    }
  }

  /** The rows `storeTickers` builds from one snapshot: one per entry, in entry order, price parsed
      from the member text, size the score, all stamped with the tick's `date`. */
  function RawRows(data: seq<Entry>, date: int, num: string -> real): (rows: seq<Row>)
    ensures |rows| == |data|
    ensures forall i :: 0 <= i < |data| ==> rows[i] == Row(num(data[i].value), data[i].score, date)
  {
    seq(|data|, i requires 0 <= i < |data| => Row(num(data[i].value), data[i].score, date))
  }

  /** Draining a snapshot of a sorted set yields exactly one row per level the set holds. */
  lemma DrainMatchesLevels(data: seq<Entry>, levels: map<string, real>, date: int, num: string -> real)
    requires IsSnapshotOf(data, levels)
    ensures |RawRows(data, date, num)| == |levels|
    ensures forall m :: m in levels ==> Row(num(m), levels[m], date) in RawRows(data, date, num)
    ensures forall r :: r in RawRows(data, date, num) ==>
      exists m :: m in levels && r == Row(num(m), levels[m], date)
  {
    SnapshotSize(data, levels);
    var rows := RawRows(data, date, num);
    forall m | m in levels ensures Row(num(m), levels[m], date) in rows {
      var i :| 0 <= i < |data| && data[i] == Entry(m, levels[m]);
      assert rows[i] == Row(num(m), levels[m], date);
    }
    forall r | r in rows ensures exists m :: m in levels && r == Row(num(m), levels[m], date) {
      var i :| 0 <= i < |rows| && rows[i] == r;
      assert data[i].value in levels;
    }
  }

  /** The inserts of one drain tick, one per key. */
  function RawWrites(tickersData: seq<TickerData>, date: int, num: string -> real): (ws: seq<Write>)
    ensures |ws| == |tickersData|
    ensures forall i :: 0 <= i < |ws| ==>
      ws[i] == Write(TableId("raw", tickersData[i].name), RawRows(tickersData[i].data, date, num))
  {
    seq(|tickersData|, i requires 0 <= i < |tickersData| =>
      Write(TableId("raw", tickersData[i].name), RawRows(tickersData[i].data, date, num)))
  }

  /** `storeTickers`: insert every key's rows into its `raw` table; a failing insert loses only its own rows. */
  method StoreTickers(connection: Pool, tickersData: seq<TickerData>, date: int, num: string -> real)
    modifies connection
    ensures connection.tables == AppendEach(old(connection.tables), RawWrites(tickersData, date, num))
  {
    ghost var ws := RawWrites(tickersData, date, num);
    for i := 0 to |tickersData|
      invariant connection.tables == AppendEach(old(connection.tables), ws[..i])
    {
      var ticker := tickersData[i];
      var data := RawRows(ticker.data, date, num);
      var ok := connection.Insert(Write(TableId("raw", ticker.name), data));
      assert ws[..i + 1][..i] == ws[..i];
    }
    assert ws[..|tickersData|] == ws;
  }

  /** A drain tick only appends, only to `raw` tables, and every row it appends carries the tick's date. */
  lemma StoreTickersEffect(t: Tables, tickersData: seq<TickerData>, date: int, num: string -> real, id: TableId)
    ensures var ws := RawWrites(tickersData, date, num);
      && AppendEach(t, ws).Keys == t.Keys
      && (id in t ==> AppendEach(t, ws)[id] == t[id] + RowsFor(ws, id))
      && (id in t && id.schema != "raw" ==> AppendEach(t, ws)[id] == t[id])
      && (forall r :: r in RowsFor(ws, id) ==> r.createdAt == date)
  {
    var ws := RawWrites(tickersData, date, num);
    AppendEachAt(t, ws, id);
    if id.schema != "raw" {
      RowsForUntargeted(ws, id);
    }
    RowsForStamped(ws, id, date);
  }

  /** With distinct key names, each existing `raw` table receives exactly its own key's rows. */
  lemma StoreTickersPerKey(t: Tables, tickersData: seq<TickerData>, date: int, num: string -> real, i: nat)
    requires i < |tickersData|
    requires forall j, k :: 0 <= j < k < |tickersData| ==> tickersData[j].name != tickersData[k].name
    requires TableId("raw", tickersData[i].name) in t
    ensures var id := TableId("raw", tickersData[i].name);
      AppendEach(t, RawWrites(tickersData, date, num))[id] == t[id] + RawRows(tickersData[i].data, date, num)
  {
    var ws := RawWrites(tickersData, date, num);
    AppendEachAt(t, ws, ws[i].table);
    RowsForDistinct(ws, i);
  }

  /** The aggregation window: one minute, in milliseconds. */
  const WindowMs := 1 * 60 * 1000

  /** The query's `WHERE created_at >= start`; it has no upper bound. */
  predicate InWindow(r: Row, start: int)
  {
    r.createdAt >= start
  }

  predicate SeenInWindow(rows: seq<Row>, start: int, p: real)
  {
    exists k :: 0 <= k < |rows| && InWindow(rows[k], start) && rows[k].price == p
  }

  lemma SeenInWindowSnoc(rows: seq<Row>, start: int)
    requires rows != []
    ensures forall p :: SeenInWindow(rows, start, p) <==>
      SeenInWindow(rows[..|rows| - 1], start, p) || (InWindow(rows[|rows| - 1], start) && rows[|rows| - 1].price == p)
  {
    var n := |rows| - 1;
    assert forall k :: 0 <= k < n ==> rows[..n][k] == rows[k];
  }

  /** The distinct prices of the rows in the window, in order of first appearance. */
  function WindowPrices(rows: seq<Row>, start: int): (ps: seq<real>)
    ensures forall i, j :: 0 <= i < j < |ps| ==> ps[i] != ps[j]
    ensures forall p :: p in ps <==> SeenInWindow(rows, start, p)
  {
    if rows == [] then []
    else
      var n := |rows| - 1;
      var ps := WindowPrices(rows[..n], start);
      SeenInWindowSnoc(rows, start);
      if InWindow(rows[n], start) && rows[n].price !in ps then ps + [rows[n].price] else ps
  }

  /** `MAX(size)` over the window's rows at price `p`. */
  function MaxSize(rows: seq<Row>, start: int, p: real): (m: real)
    requires SeenInWindow(rows, start, p)
    ensures exists k :: 0 <= k < |rows| && InWindow(rows[k], start) && rows[k].price == p && rows[k].size == m
    ensures forall k :: 0 <= k < |rows| && InWindow(rows[k], start) && rows[k].price == p ==> rows[k].size <= m
  {
    var n := |rows| - 1;
    var last := rows[n];
    assert forall k :: 0 <= k < n ==> rows[..n][k] == rows[k];
    SeenInWindowSnoc(rows, start);
    if InWindow(last, start) && last.price == p then
      if SeenInWindow(rows[..n], start, p) then
        var before := MaxSize(rows[..n], start, p);
        if last.size > before then last.size else before
      else
        last.size
    else
      MaxSize(rows[..n], start, p)
  }

  /** One row of the aggregation query's result: a price and its largest size. */
  datatype Group = Group(price: real, size: real)

  /** The query's groups have distinct prices. */
  predicate GroupsDistinct(groups: seq<Group>)
  {
    forall i, j :: 0 <= i < j < |groups| ==> groups[i].price != groups[j].price
  }

  /** Some row in the window has the group's price and size. */
  predicate Attained(g: Group, rows: seq<Row>, start: int)
  {
    exists k :: 0 <= k < |rows| && rows[k].createdAt >= start && rows[k].price == g.price && rows[k].size == g.size
  }

  /** Each group's size is the size of some row in the window at that price. */
  predicate GroupsAttained(groups: seq<Group>, rows: seq<Row>, start: int)
  {
    forall i :: 0 <= i < |groups| ==> Attained(groups[i], rows, start)
  }

  /** No row in the window has a larger size than its price's group. */
  predicate GroupsMaximal(groups: seq<Group>, rows: seq<Row>, start: int)
  {
    forall i, k :: 0 <= i < |groups| && 0 <= k < |rows| && InWindow(rows[k], start) && rows[k].price == groups[i].price ==>
      rows[k].size <= groups[i].size
  }

  /** Every price in the window has a group. */
  predicate GroupsCover(groups: seq<Group>, rows: seq<Row>, start: int)
  {
    forall k {:trigger InWindow(rows[k], start)} :: 0 <= k < |rows| && InWindow(rows[k], start) ==>
      exists i :: 0 <= i < |groups| && groups[i].price == rows[k].price
  }

  /** `groups` is a result of `SELECT price, MAX(size) ... WHERE created_at >= start GROUP BY price`:
      one group per distinct price in the window, each with the largest size at that price. */
  predicate IsGroupMax(groups: seq<Group>, rows: seq<Row>, start: int)
  {
    GroupsDistinct(groups) && GroupsAttained(groups, rows, start) && GroupsMaximal(groups, rows, start) && GroupsCover(groups, rows, start)
  }

  /** The aggregation query. SQL leaves the order of groups open; this model lists them in order
      of each price's first row in the window. */
  function MaxSizes(rows: seq<Row>, start: int): (groups: seq<Group>)
    ensures IsGroupMax(groups, rows, start)
  {
    var ps := WindowPrices(rows, start);
    var groups := seq(|ps|, i requires 0 <= i < |ps| => Group(ps[i], MaxSize(rows, start, ps[i])));
    GroupsFromPrices(rows, start, ps, groups);
    groups
  }

  lemma GroupsFromPrices(rows: seq<Row>, start: int, ps: seq<real>, groups: seq<Group>)
    requires forall i, j :: 0 <= i < j < |ps| ==> ps[i] != ps[j]
    requires forall p :: p in ps <==> SeenInWindow(rows, start, p)
    requires |groups| == |ps|
    requires forall i :: 0 <= i < |ps| ==> SeenInWindow(rows, start, ps[i]) && groups[i] == Group(ps[i], MaxSize(rows, start, ps[i]))
    ensures IsGroupMax(groups, rows, start)
  {
    forall i | 0 <= i < |groups|
      ensures Attained(groups[i], rows, start)
    {
      var m := MaxSize(rows, start, ps[i]);
      assert groups[i] == Group(ps[i], m);
      var k :| 0 <= k < |rows| && InWindow(rows[k], start) && rows[k].price == ps[i] && rows[k].size == m;
      assert rows[k].price == groups[i].price && rows[k].size == groups[i].size;
    }
    assert GroupsAttained(groups, rows, start);
    forall k | 0 <= k < |rows| && InWindow(rows[k], start)
      ensures exists i :: 0 <= i < |groups| && groups[i].price == rows[k].price
    {
      assert SeenInWindow(rows, start, rows[k].price);
      var i :| 0 <= i < |ps| && ps[i] == rows[k].price;
      assert groups[i].price == rows[k].price;
    }
  }

  /** Any two results of the query hold the same groups: only their order can differ. */
  lemma GroupMaxUnique(g1: seq<Group>, g2: seq<Group>, rows: seq<Row>, start: int)
    requires IsGroupMax(g1, rows, start) && IsGroupMax(g2, rows, start)
    ensures forall g :: g in g1 <==> g in g2
  {
    forall g | g in g1 ensures g in g2 {
      GroupIn(g1, g2, rows, start, g);
    }
    forall g | g in g2 ensures g in g1 {
      GroupIn(g2, g1, rows, start, g);
    }
  }

  lemma GroupIn(g1: seq<Group>, g2: seq<Group>, rows: seq<Row>, start: int, g: Group)
    requires IsGroupMax(g1, rows, start) && IsGroupMax(g2, rows, start)
    requires g in g1
    ensures g in g2
  {
    var i :| 0 <= i < |g1| && g1[i] == g;
    assert GroupsAttained(g1, rows, start);
    assert Attained(g1[i], rows, start);
    var k :| 0 <= k < |rows| && rows[k].createdAt >= start && rows[k].price == g.price && rows[k].size == g.size;
    assert InWindow(rows[k], start);
    assert GroupsCover(g2, rows, start);
    var j :| 0 <= j < |g2| && g2[j].price == rows[k].price;
    assert GroupsAttained(g2, rows, start);
    assert Attained(g2[j], rows, start);
    var k' :| 0 <= k' < |rows| && rows[k'].createdAt >= start && rows[k'].price == g2[j].price && rows[k'].size == g2[j].size;
    assert InWindow(rows[k'], start);
    assert GroupsMaximal(g1, rows, start);
    assert rows[k'].size <= g1[i].size;
    assert GroupsMaximal(g2, rows, start);
    assert rows[k].size <= g2[j].size;
    assert g2[j] == g;
  }

  /** The rows `storeMaxSize` inserts from the query result, all stamped with `now`. */
  function M1Rows(groups: seq<Group>, now: int): (rows: seq<Row>)
    ensures |rows| == |groups|
    ensures forall i :: 0 <= i < |groups| ==> rows[i] == Row(groups[i].price, groups[i].size, now)
  {
    seq(|groups|, i requires 0 <= i < |groups| => Row(groups[i].price, groups[i].size, now))
  }

  /** The insert one aggregation tick makes for table `name`: the last minute's groups of
      `raw.<name>` into `m1.<name>`; a missing `raw` table makes the query fail, and the insert then
      writes nothing. */
  function MaxWrite(t: Tables, name: string, now: int): Write
  {
    Write(TableId("m1", name),
          if TableId("raw", name) in t
          then M1Rows(MaxSizes(t[TableId("raw", name)], now - WindowMs), now) else [])
  }

  /** The inserts of one aggregation tick, one per table name. */
  function MaxWrites(t: Tables, names: seq<string>, now: int): (ws: seq<Write>)
    ensures |ws| == |names|
    ensures forall i :: 0 <= i < |ws| ==> ws[i].table == TableId("m1", names[i])
    ensures forall i :: 0 <= i < |ws| ==> ws[i] == MaxWrite(t, names[i], now)
  {
    seq(|names|, i requires 0 <= i < |names| => MaxWrite(t, names[i], now))
  }

  /** Inserts into the `m1` schema leave every `raw` table as it was. */
  lemma M1WritesKeepRaw(t: Tables, ws: seq<Write>, id: TableId)
    requires forall i :: 0 <= i < |ws| ==> ws[i].table.schema == "m1"
    requires id.schema == "raw"
    ensures id in AppendEach(t, ws) <==> id in t
    ensures id in t ==> AppendEach(t, ws)[id] == t[id]
  {
    AppendEachAt(t, ws, id);
    RowsForUntargeted(ws, id);
  }

  /** `storeMaxSize`: per table, aggregate the last minute of its `raw` rows and append the groups,
      stamped `now`, to the same-named `m1` table. */
  method StoreMaxSize(connection: Pool, tickers: seq<Index.Ticker>, now: int)
    modifies connection
    ensures connection.tables ==
      AppendEach(old(connection.tables), MaxWrites(old(connection.tables), GenerateTableNames(tickers), now))
  {
    var tables := GenerateTableNames(tickers);
    ghost var before := connection.tables;
    ghost var ws := MaxWrites(before, tables, now);
    for i := 0 to |tables|
      invariant connection.tables == AppendEach(before, ws[..i])
    {
      M1WritesKeepRaw(before, ws[..i], TableId("raw", tables[i]));
      AggregateTable(connection, tables[i], now, before);
      assert ws[..i + 1][..i] == ws[..i];
    }
    assert ws[..|tables|] == ws;
  }

  /** One table's step of `storeMaxSize`: query the last minute of `raw.<name>`, which still holds
      what it held before the tick, and append the groups to `m1.<name>`. */
  method AggregateTable(connection: Pool, name: string, now: int, ghost before: Tables)
    requires TableId("raw", name) in connection.tables <==> TableId("raw", name) in before
    requires TableId("raw", name) in before ==>
      connection.tables[TableId("raw", name)] == before[TableId("raw", name)]
    modifies connection
    ensures connection.tables == Append(old(connection.tables), MaxWrite(before, name, now))
  {
    var startDate := now - WindowMs;
    var raw := TableId("raw", name);
    var m1 := TableId("m1", name);
    if raw in connection.tables {
      var maxSizes := MaxSizes(connection.tables[raw], startDate);
      var ok := connection.Insert(Write(m1, M1Rows(maxSizes, now)));
    } else {
      ghost var current := connection.tables;
      assert m1 in current ==> current[m1] + [] == current[m1];
      assert Append(current, MaxWrite(before, name, now)) == current;
    }
  }

  /** An aggregation tick only appends, only to `m1` tables (the `raw` tables are untouched), and
      every row it appends carries `now`. */
  lemma StoreMaxSizeEffect(t: Tables, tickers: seq<Index.Ticker>, now: int, id: TableId)
    ensures var ws := MaxWrites(t, GenerateTableNames(tickers), now);
      && AppendEach(t, ws).Keys == t.Keys
      && (id in t ==> AppendEach(t, ws)[id] == t[id] + RowsFor(ws, id))
      && (id in t && id.schema != "m1" ==> AppendEach(t, ws)[id] == t[id])
      && (forall r :: r in RowsFor(ws, id) ==> r.createdAt == now)
  {
    var ws := MaxWrites(t, GenerateTableNames(tickers), now);
    AppendEachAt(t, ws, id);
    if id.schema != "m1" {
      RowsForUntargeted(ws, id);
    }
    RowsForStamped(ws, id, now);
  }

  /** With distinct table names, each `m1` table receives exactly the groups of its own `raw`
      table's last minute, or nothing when that `raw` table is missing. */
  lemma StoreMaxSizePerTable(t: Tables, tickers: seq<Index.Ticker>, now: int, i: nat)
    requires i < |GenerateTableNames(tickers)|
    requires forall j, k :: 0 <= j < k < |GenerateTableNames(tickers)| ==>
      GenerateTableNames(tickers)[j] != GenerateTableNames(tickers)[k]
    requires TableId("m1", GenerateTableNames(tickers)[i]) in t
    ensures var name := GenerateTableNames(tickers)[i];
      var after := AppendEach(t, MaxWrites(t, GenerateTableNames(tickers), now));
      after[TableId("m1", name)] == t[TableId("m1", name)] +
        (if TableId("raw", name) in t then M1Rows(MaxSizes(t[TableId("raw", name)], now - WindowMs), now) else [])
  {
    var ws := MaxWrites(t, GenerateTableNames(tickers), now);
    AppendEachAt(t, ws, ws[i].table);
    RowsForDistinct(ws, i);
  }

  /** Three rows at one price within the window give one group with the largest of their sizes. */
  lemma MaxSizesExample(t: int)
    ensures MaxSizes([Row(100.0, 5.0, t), Row(100.0, 8.0, t), Row(100.0, 2.0, t)], t - WindowMs)
         == [Group(100.0, 8.0)]
  {
    var rows := [Row(100.0, 5.0, t), Row(100.0, 8.0, t), Row(100.0, 2.0, t)];
    var start := t - WindowMs;
    assert rows[..2] == [Row(100.0, 5.0, t), Row(100.0, 8.0, t)];
    assert rows[..2][..1] == [Row(100.0, 5.0, t)];
    assert rows[..2][..1][..0] == [];
    assert WindowPrices(rows[..2][..1][..0], start) == [];
    assert WindowPrices(rows[..2][..1], start) == [100.0];
    assert WindowPrices(rows[..2], start) == [100.0];
    assert WindowPrices(rows, start) == [100.0];
    assert !SeenInWindow(rows[..2][..1][..0], start, 100.0);
    assert MaxSize(rows[..2][..1], start, 100.0) == 5.0;
    assert MaxSize(rows[..2], start, 100.0) == 8.0;
    assert MaxSize(rows, start, 100.0) == 8.0;
  }
}
