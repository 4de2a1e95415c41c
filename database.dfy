/** The durable store as this core sees it: named tables of rows, bulk insert and "create if not exists". */
module Database {

  /** One row of a `raw.*` or `m1.*` table (`price REAL, size REAL, created_at TIMESTAMP`); time in milliseconds. */
  datatype Row = Row(price: real, size: real, createdAt: int)

  /** A schema-qualified table name `schema.name`. */
  datatype TableId = TableId(schema: string, name: string)

  /** One bulk `INSERT INTO table SELECT * FROM unnest(rows)`. */
  datatype Write = Write(table: TableId, rows: seq<Row>)

  type Tables = map<TableId, seq<Row>>

  /** An insert appends to an existing table; an insert into a missing table fails and changes nothing. */
  function Append(t: Tables, w: Write): (r: Tables)
    ensures r.Keys == t.Keys
    ensures w.table in t ==> r[w.table] == t[w.table] + w.rows
    ensures forall id :: id in t && id != w.table ==> r[id] == t[id]
  {
    if w.table in t then t[w.table := t[w.table] + w.rows] else t
  }

  /** The writes `ws`, each an independent insert, applied in order. */
  function AppendEach(t: Tables, ws: seq<Write>): (r: Tables)
    ensures r.Keys == t.Keys
  {
    if ws == [] then t else Append(AppendEach(t, ws[..|ws| - 1]), ws[|ws| - 1])
  }

  /** All rows that the writes `ws` direct at table `id`, in write order. */
  function RowsFor(ws: seq<Write>, id: TableId): seq<Row>
  {
    if ws == [] then []
    else RowsFor(ws[..|ws| - 1], id) + (if ws[|ws| - 1].table == id then ws[|ws| - 1].rows else [])
  }

  /** Per table, a series of inserts only appends: no table appears or disappears, and each existing
      table ends with exactly the rows written to it. */
  lemma {:induction false} AppendEachAt(t: Tables, ws: seq<Write>, id: TableId)
    ensures id in t ==> AppendEach(t, ws)[id] == t[id] + RowsFor(ws, id)
  {
    if ws != [] {
      AppendEachAt(t, ws[..|ws| - 1], id);
    }
  }

  /** A table no write targets receives nothing. */
  lemma {:induction false} RowsForUntargeted(ws: seq<Write>, id: TableId)
    requires forall i :: 0 <= i < |ws| ==> ws[i].table != id
    ensures RowsFor(ws, id) == []
  {
    if ws != [] {
      RowsForUntargeted(ws[..|ws| - 1], id);
    }
  }

  /** When the writes target distinct tables, table `ws[i].table` receives exactly `ws[i].rows`. */
  lemma {:induction false} RowsForDistinct(ws: seq<Write>, i: nat)
    requires i < |ws|
    requires forall j, k :: 0 <= j < k < |ws| ==> ws[j].table != ws[k].table
    ensures RowsFor(ws, ws[i].table) == ws[i].rows
  {
    var n := |ws| - 1;
    if i == n {
      RowsForUntargeted(ws[..n], ws[i].table);
    } else {
      RowsForDistinct(ws[..n], i);
    }
  }

  /** Every row that a series of writes directs at a table satisfies what all written rows satisfy. */
  lemma {:induction false} RowsForStamped(ws: seq<Write>, id: TableId, date: int)
    requires forall i, k :: 0 <= i < |ws| && 0 <= k < |ws[i].rows| ==> ws[i].rows[k].createdAt == date
    ensures forall r :: r in RowsFor(ws, id) ==> r.createdAt == date
  {
    if ws != [] {
      RowsForStamped(ws[..|ws| - 1], id, date);
    }
  }

  /** The Postgres connection pool, reduced to the tables it holds. */
  class Pool {
    var tables: Tables

    constructor ()
      ensures tables == map[]
    {
      tables := map[];
    }

    /** `CREATE TABLE IF NOT EXISTS schema.name (price, size, created_at)`. */
    method CreateTable(id: TableId)
      modifies this
      ensures tables.Keys == old(tables).Keys + {id}
      ensures id !in old(tables) ==> tables[id] == []
      ensures forall t :: t in old(tables) ==> tables[t] == old(tables)[t]
    {
      if id !in tables {
        tables := tables[id := []];
      }
    }

    /** A bulk insert; `ok` is false when the table does not exist, and then nothing changes. */
    method Insert(w: Write) returns (ok: bool)
      modifies this
      ensures ok == (w.table in old(tables))
      ensures tables == Append(old(tables), w)
    {
      ok := w.table in tables;
      tables := Append(tables, w);
    }
  }
}
