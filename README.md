# Order-book cache and persistence pipeline, modelled in Dafny

This project models the core of a service that tracks exchange order books. Three workers share the state:

- The **ingestors** (`tickers.js`) run one per instrument. Each level-2 update event becomes one Redis MULTI batch. The batch holds one sorted-set command per changed level, asks first and then bids, in list order. EXEC commits it.
- The **persistence worker** (`persist.js`) has two timers. Every drain tick copies each tracked sorted set into a `raw.<key>` table, with every row stamped with the tick's time. Every aggregation tick runs a query per table: the largest size seen at each price in the last minute. It appends the result, stamped `now`, to `m1.<key>`.
- The **coordinator** (`index.js`) shapes the exchange's tickers and creates the `raw` and `m1` tables for every key.

Every key name is `base:quote:side`. The three files build it separately, and the model proves that the three constructions agree.

Modules:

- `Common`: `Option`; JavaScript interpolation of a possibly `undefined` value; the `base:quote:side` key that all three workers spell; `flat()`.
- `Cache`: Redis state as a map from key to sorted set, where a sorted set maps a member to a score. It defines the ZADD/ZREM commands and their in-order application. It has the classes `Batch` (a MULTI) and `Client` (EXEC and `zRangeWithScores`).
- `Database`: Postgres tables as a map from `schema.name` to a sequence of rows. An insert appends to an existing table and fails on a missing one. "Create if not exists" never touches an existing table.
- `Tickers`: `updateLimit` and `onLimitsUpdate`.
- `Index`: `split('/')`, `getTickers`, the table list and the create statements of `initTickersTables`.
- `Persist`: `generateTableNames`, `extractTickerData`, `storeTickers`, the GROUP BY/MAX query and `storeMaxSize`.
- `Pipeline`: the agreement lemmas between files, and one drain tick.

Abstractions:

- `parseFloat` is the parameter `num: string -> real`, and "parses to zero" is `num(size) == 0.0`.
- The clock is a parameter: `date` for a drain tick and `now` for an aggregation tick, both in milliseconds.
- The exchange's ticker list is an input sequence.

The removal quirk is kept as the code has it. A zero-size level queues `ZREM key <size text>`, not `ZREM key <price text>`. Members are price texts, so such an update normally removes nothing, and the price level stays.

Points where the code's behaviour is easy to misread, stated as the model has them:

- The aggregation query's window is `created_at >= startDate` with no upper bound. Rows stamped after `now` are included too. `startDate` is read as the instant `now - 60000` (see `Persist.StoreMaxSize` under "## Left out").
- A zero-size level queues `ZREM` of its size text, not of its price text (above).
- The CREATE statements in `initTickersTables` are not awaited. The inner `tables.map` result is discarded (`index.js:53`), so `Promise.all` waits only on the schema callbacks. The model states what the statements do once they have run.

## Model

| member | source | states |
|---|---|---|
| Common.KeyLayout | services/tickers-processing-server/sources/tickers.js:33-36 | The key `Common.Key` builds reads back as its fields: the base, `:`, the quote text (`undefined` when absent), `:`, the side. The ingestors' keys (`tickers.js:33`, `tickers.js:36`), `generateTableNames` (`persist.js:18`) and the coordinator's list (`index.js:44`) all use this one function. |
| Cache.Apply | services/tickers-processing-server/sources/tickers.js:17-19 | ZADD sets the member's score in its key's set, and ZREM removes the member. No other key's set changes. No empty set is ever left behind. |
| Cache.ApplyAllAppend | services/tickers-processing-server/sources/tickers.js:30-39 | Commands are applied in queue order. Applying a + b equals applying a, then b. |
| Cache.ApplyAllIsolation | services/tickers-processing-server/sources/tickers.js:30-39 | A batch leaves every key it does not name exactly as it was. |
| Cache.ApplyAll | services/tickers-processing-server/sources/tickers.js:39 | EXEC applies the queued commands one after another, in queue order. A cache with no empty sorted set still has none afterwards. |
| Cache.ApplyAllNetEffect | services/tickers-processing-server/sources/tickers.js:30-39 | After a batch, each member's score is set by the last command that names it: ZADD sets it, ZREM removes it. A member no command names keeps its prior score. |
| Cache.RemoveAbsentIsNoOp | services/tickers-processing-server/sources/tickers.js:17 | Removing a member that is not present changes nothing. |
| Cache.SnapshotSize | services/tickers-processing-server/sources/persist.js:37 | A full-range snapshot has exactly one entry per member of the set. |
| Cache.Batch.ZAdd | services/tickers-processing-server/sources/tickers.js:19 | Queues one ZADD at the end of the batch. Nothing takes effect yet. |
| Cache.Batch.ZRem | services/tickers-processing-server/sources/tickers.js:17 | Queues one ZREM at the end of the batch. Nothing takes effect yet. |
| Cache.Client.Multi | services/tickers-processing-server/sources/tickers.js:30 | Returns a fresh, empty batch. |
| Cache.Client.Exec | services/tickers-processing-server/sources/tickers.js:39 | The new cache is the in-order application of all queued commands to the old cache. The no-empty-set invariant is kept. |
| Cache.Client.RangeWithScores | services/tickers-processing-server/sources/persist.js:37 | Returns every member of the key's set with its score, each exactly once, and nothing else. A missing key gives no entries. |
| Tickers.LimitCommand | services/tickers-processing-server/sources/tickers.js:15-21 | The one command for a level is on `name`. It is a ZREM exactly when the size parses to zero, and its member is then the size text. Otherwise it is a ZADD of the price text, with the parsed, non-zero size as score. |
| Tickers.Queue | services/tickers-processing-server/sources/tickers.js:32-37 | `forEach` over a list of levels queues one command per level, in list order. |
| Tickers.UpdateCommands | services/tickers-processing-server/sources/tickers.js:32-37 | The batch is all asks, in order, on `base:quote:ask`, then all bids, in order, on `base:quote:bid`. It has no other commands and no other keys. |
| Tickers.UpdateLimit | services/tickers-processing-server/sources/tickers.js:15-21 | Queues exactly one command on `name`. A size that parses to zero queues ZREM of the size text. Any other size queues ZADD with member = price and score = the parsed size. |
| Tickers.UpdateLimits | services/tickers-processing-server/sources/tickers.js:32-37 | Each `forEach` appends exactly one command per level to the batch, in list order, after the commands already queued. |
| Tickers.OnLimitsUpdate | services/tickers-processing-server/sources/tickers.js:29-40 | The committed cache is the in-order application of the event's whole batch to the prior cache. |
| Tickers.SideKeysDiffer | services/tickers-processing-server/sources/tickers.js:33-36 | An event's ask key and bid key always differ. |
| Tickers.UpdateIsolation | services/tickers-processing-server/sources/tickers.js:30-39 | An event changes no sorted set other than its market's ask set and bid set. |
| Tickers.SidesIndependent | services/tickers-processing-server/sources/tickers.js:32-37 | Each side ends as the in-order application of that side's own levels. The bids never disturb the asks, and the asks never disturb the bids. |
| Tickers.UpsertReplaces | services/tickers-processing-server/sources/tickers.js:19 | A non-zero level sets exactly that price's size. It adds at most that one level, and every other price keeps its size. |
| Tickers.ZeroSizeKeepsPriceLevel | services/tickers-processing-server/sources/tickers.js:16-17 | A zero-size level removes the member equal to its size text. A resting level at a price other than that text stays, with its size. |
| Tickers.ZeroSizeExample | services/tickers-processing-server/sources/tickers.js:16-19 | A zero-size ask at 29000.01 leaves the 29000.01 level in place: the cache is unchanged. |
| Index.Split | services/tickers-processing-server/sources/index.js:24-25 | `split('/')` always yields at least one part. |
| Index.SplitJoin | services/tickers-processing-server/sources/index.js:24-25 | Joining the parts of a split with the separator gives back the symbol. |
| Index.SplitNoSeparator | services/tickers-processing-server/sources/index.js:24-25 | No part of a split contains the separator. |
| Index.SplitHead | services/tickers-processing-server/sources/index.js:24-25 | The first part is the text before the first `/`. A second part exists exactly when the symbol contains `/`. The remaining parts are the split of the text after that `/`. |
| Index.SliceEnd | services/tickers-processing-server/sources/index.js:20 | `slice(0, maxTickers)` stops at the list's end when the setting is absent, at `min(maxTickers, n)` when it is not negative, and `-maxTickers` items before the end (but not below 0) when it is negative. |
| Index.GetTickers | services/tickers-processing-server/sources/index.js:18-30 | Returns the first `min(n, maxTickers)` exchange tickers in order, or all of them when the setting is absent. A negative limit counts from the back. Each ticker is shaped from its exchange ticker at the same index. |
| Index.ToTicker | services/tickers-processing-server/sources/index.js:21-28 | `id` is `info.symbol`. `base` is the symbol text before the first `/`. `quote` is the text between the first and second `/`, and is absent when there is no `/`. |
| Index.TableList | services/tickers-processing-server/sources/index.js:41-46 | Gives 2·n names: every `base:quote:bid` in ticker order, then every `base:quote:ask`. |
| Index.CreateStatements | services/tickers-processing-server/sources/index.js:49-63 | Gives 4·n create statements: every table in the `raw` schema, then every table in the `m1` schema. |
| Index.RunCreateStatements | services/tickers-processing-server/sources/index.js:52-63 | Running the CREATE statements one by one makes each statement's table exist. Tables that already existed keep their rows, new tables are empty, and no other table appears. |
| Index.InitTickersTables | services/tickers-processing-server/sources/index.js:39-67 | Afterwards every statement's table exists. Existing tables keep their rows, new tables are empty, and no other table appears. |
| Database.Append | services/tickers-processing-server/sources/persist.js:61-64 | One bulk insert appends its rows to an existing table and leaves every other table alone. An insert into a missing table changes nothing, and no table appears or disappears. |
| Database.AppendEach | services/tickers-processing-server/sources/persist.js:52-65 | A series of inserts never creates or drops a table. |
| Database.AppendEachAt | services/tickers-processing-server/sources/persist.js:52-65 | Each existing table ends with its old rows followed by exactly the rows written to it, in write order. |
| Database.RowsForDistinct | services/tickers-processing-server/sources/persist.js:52-65 | When the writes target distinct tables, each table receives exactly its own write's rows. |
| Database.Pool.CreateTable | services/tickers-processing-server/sources/index.js:56-62 | `CREATE TABLE IF NOT EXISTS`: adds an empty table when it is missing, and otherwise changes nothing. |
| Database.Pool.Insert | services/tickers-processing-server/sources/persist.js:61-64 | A bulk insert appends its rows to an existing table. An insert into a missing table fails (`ok` is false), and nothing changes. |
| Persist.GenerateTableNames | services/tickers-processing-server/sources/persist.js:14-22 | Gives exactly 2·n keys: every `base:quote:bid` in ticker order, then every `base:quote:ask`. |
| Persist.TableNameMembership | services/tickers-processing-server/sources/persist.js:14-22 | A key is generated if and only if it is the bid key or the ask key of some ticker. |
| Persist.ExtractTickerData | services/tickers-processing-server/sources/persist.js:31-41 | Gives one entry per generated key, in key order. Each entry's `name` is the key and its `data` is a full snapshot of that key's set. |
| Persist.RawRows | services/tickers-processing-server/sources/persist.js:54-58 | Gives one row per snapshot entry, in entry order: price parsed from the member, size = score, and every row stamped with the tick's date. |
| Persist.DrainMatchesLevels | services/tickers-processing-server/sources/persist.js:51-58 | Draining a snapshot yields exactly one row per cached level, and no row that is not a level. |
| Persist.RawWrites | services/tickers-processing-server/sources/persist.js:52-64 | One drain tick makes one insert per key, into `raw.<key>`, holding that key's rows. |
| Persist.StoreTickers | services/tickers-processing-server/sources/persist.js:50-66 | The new tables are the old ones with the tick's inserts applied in turn. A failed insert loses only its own rows. |
| Persist.StoreTickersEffect | services/tickers-processing-server/sources/persist.js:50-66 | A drain tick only appends, and only to `raw` tables. Every row it appends carries the tick's single date. |
| Persist.StoreTickersPerKey | services/tickers-processing-server/sources/persist.js:52-64 | With distinct keys, each existing `raw` table receives exactly its own key's snapshot rows. |
| Persist.WindowPrices | services/tickers-processing-server/sources/persist.js:84-89 | Lists the distinct prices of the rows with `created_at >= start`, each exactly once. |
| Persist.MaxSize | services/tickers-processing-server/sources/persist.js:85 | `MAX(size)` at a price: the size of some window row at that price, and at least the size of every window row at that price. |
| Persist.MaxSizes | services/tickers-processing-server/sources/persist.js:84-89 | GROUP BY price gives one group per distinct price in the window, each with the largest size at that price. A price with no row in the window has no group. |
| Persist.GroupMaxUnique | services/tickers-processing-server/sources/persist.js:84-89 | Any two results of the query hold the same groups and can differ only in order. |
| Persist.M1Rows | services/tickers-processing-server/sources/persist.js:90-94 | Gives one row per group, with the group's price and size, all stamped `now`. |
| Persist.MaxWrites | services/tickers-processing-server/sources/persist.js:80-104 | One aggregation tick makes one insert per generated name, into `m1.<name>`. |
| Persist.M1WritesKeepRaw | services/tickers-processing-server/sources/persist.js:97-104 | Inserts into `m1` leave every `raw` table as it was. |
| Persist.StoreMaxSize | services/tickers-processing-server/sources/persist.js:75-107 | The new tables are the old ones with one insert per name. Each insert holds the last minute's groups of the same-named `raw` table, stamped `now`, or nothing if that `raw` table is missing. |
| Persist.AggregateTable | services/tickers-processing-server/sources/persist.js:82-103 | One table's query and insert: `m1.<name>` gains the last minute's groups of `raw.<name>` as it was before the tick, stamped `now`. A missing `raw` table makes the query fail, and then nothing changes. |
| Persist.StoreMaxSizeEffect | services/tickers-processing-server/sources/persist.js:77-104 | An aggregation tick only appends, and only to `m1` tables, so the `raw` tables are untouched. Every row it appends carries `now`. |
| Persist.StoreMaxSizePerTable | services/tickers-processing-server/sources/persist.js:80-104 | With distinct names, each `m1` table receives exactly the groups of its own `raw` table's last minute. |
| Persist.MaxSizesExample | services/tickers-processing-server/sources/persist.js:84-89 | Rows at price 100 with sizes 5, 8 and 2 in the window give exactly one group, (100, 8). |
| Pipeline.TableListAgrees | services/tickers-processing-server/sources/index.js:41-46 | The coordinator's table list equals `generateTableNames`, element for element. |
| Pipeline.IngestorKeysAreTables | services/tickers-processing-server/sources/tickers.js:33-36 | Ticker i's ingestor writes bids to the i-th generated key and asks to the (n+i)-th. Both keys are among the keys that are drained and aggregated. |
| Pipeline.SingleTickerKeys | services/tickers-processing-server/sources/persist.js:18 | `generateTableNames([ticker])` is exactly that ticker's bid key and ask key, in that order. |
| Pipeline.StartupCoversEveryKey | services/tickers-processing-server/sources/index.js:49-63 | Every drained key has a create statement in both the `raw` schema and the `m1` schema. |
| Pipeline.OtherTickersUntouched | services/tickers-processing-server/sources/tickers.js:32-39 | With distinct keys, an event for one ticker leaves every other ticker's sorted sets as they were. |
| Pipeline.DrainTick | services/tickers-processing-server/sources/persist.js:115-119 | A drain tick snapshots every generated key, then appends each snapshot's rows, stamped with the tick's date, to its `raw` table. |

## Left out

- Persist.StoreMaxSize: the query bound is `sql.date(startDate)` (`persist.js:87`). The model reads that parameter as the exact instant `now - 60000`, as the comment at `persist.js:76` intends. How slonik actually serializes `sql.date` (a timestamp, or only the calendar date) is library behaviour that is not modelled. If only the date is sent, the real window starts at that day's midnight, not one minute ago.
- Every update event is assumed to carry the `base` and `quote` of the ticker it was subscribed for (`subscribeLevel2Updates(ticker)`, `tickers.js:50-51`). The exchange client sets those fields, and it is not modelled. `Pipeline.IngestorKeysAreTables`, `Pipeline.SingleTickerKeys` and `Pipeline.OtherTickersUntouched` take this as their `requires`, and the cross-file agreement rests on it.
- Worker threads and the `workerData` hand-off (the `Worker` spawns in `index.js` and the worker entry points): thread lifecycle and concurrency. Each worker's step is modelled as one method call.
- The `setInterval` timers and their 1 s / 60 s cadence: this is scheduling. One drain tick and one aggregation tick are methods that take the clock value.
- `Promise.all` and the un-awaited `map(async …)` calls: these are concurrency and error isolation. Per-key inserts are modelled as independent inserts applied one after another. A failed insert changes nothing. Unhandled promise rejections are not modelled.
- The exchange clients (`fetchTickers`, `subscribeLevel2Updates` and its thrown error): network I/O. The ticker list and the update events are inputs.
- `cache.js` and `databases.js`: connection-URL assembly from environment variables and client connect. The clients are modelled only by the state they reach.
- `scripts/analyze_scan.js`: it shells out to an external scanner.
- `parseFloat` is the abstract parameter `num`. Redis's score parsing and Postgres `float4`/`REAL` rounding are not modelled. Prices are grouped by the parsed value.
- Date and ISO formatting and slonik's `sql.identifier`/`sql.unnest` escaping: library internals. Timestamps are integers in milliseconds.
- Cache.Client.RangeWithScores: promises no order, while Redis returns members by ascending score. That ordering is library behaviour.
- Persist.MaxSizes: lists groups in order of each price's first row in the window. SQL leaves this order open. `GroupMaxUnique` shows that only the order can differ between results.
- Index.GetTickers: `maxTickers` is an optional integer. Parsing the `MAX_TICKERS` environment string (non-numeric or fractional values) is not modelled.
- Database.Pool.Insert: a failing insert is modelled only as "the table does not exist". Other database errors are not modelled.
