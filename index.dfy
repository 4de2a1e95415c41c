/** The coordinator's pure steps: shaping the exchange's tickers, listing the tables every ticker
    needs, and creating those tables in both schemas before ingestion starts. */
module Index {
  import opened Common
  import opened Database

  /** A ticker as the exchange reports it: the unified symbol `BASE/QUOTE` and the exchange's own id. */
  datatype ExchangeTicker = ExchangeTicker(symbol: string, infoSymbol: string)

  /** A tracked instrument. `quote` is absent when the symbol has no `/`, as `split('/')[1]` is then `undefined`. */
  datatype Ticker = Ticker(id: string, base: string, quote: Option<string>)

  /** JavaScript's `s.split(sep)` for a one-character separator. */
  function Split(s: string, sep: char): (parts: seq<string>)
    ensures |parts| >= 1
    decreases |s|
  {
    if s == [] then [""]
    else
      var rest := Split(s[1..], sep);
      if s[0] == sep then [""] + rest else [[s[0]] + rest[0]] + rest[1..]
  }

  /** `parts.join(sep)`. */
  function Join(parts: seq<string>, sep: char): string
    requires |parts| >= 1
  {
    if |parts| == 1 then parts[0] else parts[0] + [sep] + Join(parts[1..], sep)
  }

  /** `f` is the field at the start of `s`: a prefix without `sep`, ended by `sep` or by the end of `s`. */
  predicate IsField(f: string, s: string, sep: char)
  {
    |f| <= |s| && f == s[..|f|] && sep !in f && (|f| == |s| || s[|f|] == sep)
  }

  /** Joining the parts of a split gives back the text. */
  lemma {:induction false} SplitJoin(s: string, sep: char)
    ensures Join(Split(s, sep), sep) == s
    decreases |s|
  {
    if s != [] {
      var rest := Split(s[1..], sep);
      SplitJoin(s[1..], sep);
      if s[0] == sep {
        assert Split(s, sep)[1..] == rest;
      } else if |rest| == 1 {
        assert Join(Split(s, sep), sep) == [s[0]] + rest[0];
      } else {
        var parts := Split(s, sep);
        assert parts[1..] == rest[1..];
        assert Join(rest, sep) == rest[0] + [sep] + Join(rest[1..], sep);
        assert Join(parts, sep) == ([s[0]] + rest[0]) + [sep] + Join(rest[1..], sep);
      }
    }
  }

  /** No part of a split contains the separator. */
  lemma {:induction false} SplitNoSeparator(s: string, sep: char)
    ensures forall i :: 0 <= i < |Split(s, sep)| ==> sep !in Split(s, sep)[i]
    decreases |s|
  {
    if s != [] {
      SplitNoSeparator(s[1..], sep);
      var rest := Split(s[1..], sep);
      if s[0] != sep {
        assert forall c :: c in [s[0]] + rest[0] ==> c == s[0] || c in rest[0];
      }
    }
  }

  /** The first part of a split is the text before the first separator; there is a second part
      exactly when the text contains the separator, and the remaining parts are the split of what
      follows that separator. */
  lemma {:induction false} SplitHead(s: string, sep: char)
    ensures IsField(Split(s, sep)[0], s, sep)
    ensures |Split(s, sep)| > 1 <==> sep in s
    ensures sep in s ==> |Split(s, sep)[0]| < |s| && Split(s, sep)[1..] == Split(s[|Split(s, sep)[0]| + 1..], sep)
    decreases |s|
  {
    if s != [] {
      SplitHead(s[1..], sep);
      var rest := Split(s[1..], sep);
      var head := Split(s, sep)[0];
      if s[0] == sep {
        assert Split(s, sep)[1..] == rest;
        assert s[1..] == s[|head| + 1..];
      } else {
        assert head == [s[0]] + rest[0];
        assert s == [s[0]] + s[1..];
        assert sep in s <==> sep in s[1..];
        assert forall c :: c in head ==> c == s[0] || c in rest[0];
        if sep in s {
          assert s[1..][|rest[0]| + 1..] == s[|head| + 1..];
        }
      }
    }
  }

  /** Where `slice(0, end)` stops on a list of `len` items; `end` is the `MAX_TICKERS` setting,
      absent when it is not set. A negative end counts from the back. */
  function SliceEnd(len: nat, end: Option<int>): (r: nat)
    ensures r <= len
    ensures end.None? ==> r == len
    ensures end.Some? && end.value >= 0 ==> r == Min(end.value, len)
    ensures end.Some? && end.value < 0 ==> r == len - Min(-end.value, len)
  {
    match end
    case None => len
    case Some(e) =>
      if e < 0 then (if len + e < 0 then 0 else len + e)
      else if e < len then e else len
  }

  /** One exchange ticker shaped as the coordinator stores it: the exchange's id, the symbol text
      before the first `/` as base, and the text between the first and the second `/` as quote
      (absent without a `/`). */
  function ToTicker(t: ExchangeTicker): (r: Ticker)
    ensures r.id == t.infoSymbol
    ensures IsField(r.base, t.symbol, '/')
    ensures r.quote.Some? <==> '/' in t.symbol
    ensures r.quote.Some? ==> IsField(r.quote.value, t.symbol[|r.base| + 1..], '/')
  {
    var parts := Split(t.symbol, '/');
    SplitHead(t.symbol, '/');
    if '/' in t.symbol then
      var after := t.symbol[|parts[0]| + 1..];
      SplitHead(after, '/');
      assert parts[1] == parts[1..][0] == Split(after, '/')[0];
      Ticker(t.infoSymbol, parts[0], Some(parts[1]))
    else
      Ticker(t.infoSymbol, parts[0], None)
  }

  /** `getTickers`: the exchange's tickers in order, cut to `maxTickers`, each shaped by `ToTicker`. */
  function GetTickers(allTickers: seq<ExchangeTicker>, maxTickers: Option<int>): (tickers: seq<Ticker>)
    ensures |tickers| == SliceEnd(|allTickers|, maxTickers)
    ensures maxTickers.None? ==> |tickers| == |allTickers|
    ensures maxTickers.Some? && maxTickers.value >= 0 ==> |tickers| == Min(maxTickers.value, |allTickers|)
    ensures forall i :: 0 <= i < |tickers| ==> tickers[i] == ToTicker(allTickers[i])
  {
    var limited := allTickers[..SliceEnd(|allTickers|, maxTickers)];
    seq(|limited|, i requires 0 <= i < |limited| => ToTicker(limited[i]))
  }

  const Types := ["bid", "ask"]

  /** The table list of `initTickersTables`: every bid table in ticker order, then every ask table. */
  function TableList(tickers: seq<Ticker>): (tables: seq<string>)
    ensures |tables| == 2 * |tickers|
    ensures forall i {:trigger tables[i]} :: 0 <= i < |tickers| ==>
      tables[i] == Key(tickers[i].base, tickers[i].quote, "bid")
    ensures forall i {:trigger tables[i]} :: |tickers| <= i < 2 * |tickers| ==>
      tables[i] == Key(tickers[i - |tickers|].base, tickers[i - |tickers|].quote, "ask")
  {
    var perType := seq(|Types|, j requires 0 <= j < |Types| =>
      seq(|tickers|, i requires 0 <= i < |tickers| =>
        Key(tickers[i].base, tickers[i].quote, Types[j])));
    FlattenTwo(perType);
    Flatten(perType)
  }

  const Schemas := ["raw", "m1"]

  /** The `CREATE TABLE IF NOT EXISTS` statements of `initTickersTables`: every table of the list in
      the `raw` schema, then every table in the `m1` schema. */
  function CreateStatements(tickers: seq<Ticker>): (ids: seq<TableId>)
    ensures |ids| == 4 * |tickers|
    ensures forall i :: 0 <= i < 2 * |tickers| ==>
      ids[i] == TableId("raw", TableList(tickers)[i]) && ids[2 * |tickers| + i] == TableId("m1", TableList(tickers)[i])
  {
    var tables := TableList(tickers);
    var perSchema := seq(|Schemas|, j requires 0 <= j < |Schemas| =>
      seq(|tables|, i requires 0 <= i < |tables| => TableId(Schemas[j], tables[i])));
    FlattenTwo(perSchema);
    Flatten(perSchema)
  }

  /** `initTickersTables`: afterwards every statement's table exists; a table that existed keeps its
      rows, a new one is empty, and no other table appears. */
  method InitTickersTables(connection: Pool, tickers: seq<Ticker>)
    modifies connection
    ensures forall id :: id in connection.tables <==> id in old(connection.tables) || id in CreateStatements(tickers)
    ensures forall id :: id in old(connection.tables) ==> connection.tables[id] == old(connection.tables)[id]
    ensures forall id :: id in connection.tables && id !in old(connection.tables) ==> connection.tables[id] == []
  {
    var statements := CreateStatements(tickers);
    RunCreateStatements(connection, statements);
  }

  /** Issues the statements one by one. */
  method RunCreateStatements(connection: Pool, statements: seq<TableId>)
    modifies connection
    ensures forall id :: id in connection.tables <==> id in old(connection.tables) || id in statements
    ensures forall id :: id in old(connection.tables) ==> connection.tables[id] == old(connection.tables)[id]
    ensures forall id :: id in connection.tables && id !in old(connection.tables) ==> connection.tables[id] == []
  {
    for i := 0 to |statements|
      invariant forall k :: 0 <= k < i ==> statements[k] in connection.tables
      invariant forall id :: id in connection.tables ==> id in old(connection.tables) || id in statements
      invariant forall id :: id in old(connection.tables) ==>
        id in connection.tables && connection.tables[id] == old(connection.tables)[id]
      invariant forall id :: id in connection.tables && id !in old(connection.tables) ==> connection.tables[id] == []
    {
      connection.CreateTable(statements[i]);
    }
  }
}
