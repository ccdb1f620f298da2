/** The counters of one database and of the whole run. */
module Counters {
  import opened Specs
  import opened Columns

  datatype DbCounter = DbCounter(rows: nat, rowMax: nat, tables: nat, columns: nat, shared: Shared)

  datatype GeneratorCounter =
    GeneratorCounter(rows: nat, rowMax: nat, tables: nat, columns: nat, databases: nat, shared: Shared)

  const NoDatabases: GeneratorCounter := GeneratorCounter(0, 0, 0, 0, 0, Nothing)

  const NoTables: DbCounter := DbCounter(0, 0, 0, 0, Nothing)

  /** database_counter_init, for the first table and its first column. */
  function Init(rows: nat): DbCounter {
    DbCounter(rows, rows, 1, 1, Nothing)
  }

  /** A further table, before its first column is counted. */
  function NextTable(c: DbCounter, rows: nat): DbCounter {
    c.(rows := c.rows + rows, rowMax := Max(c.rowMax, rows), tables := c.tables + 1)
  }

  /** generator_counter_update. */
  function Update(g: GeneratorCounter, c: DbCounter): GeneratorCounter {
    GeneratorCounter(g.rows + c.rows, Max(g.rowMax, c.rowMax), g.tables + c.tables, g.columns + c.columns,
                     g.databases + 1, Merge(g.shared, c.shared))
  }

  // ---------- what they should be ----------

  function ColumnCount(cs: seq<Col>): nat {
    if cs == [] then 0 else ColumnCount(cs[..|cs| - 1]) + Cells(cs[|cs| - 1].body)
  }

  /** The counter of a database made of these tables. */
  function CountTbls(s: Setters, ts: seq<Tbl>): DbCounter {
    if ts == [] then NoTables
    else
      var t := ts[|ts| - 1];
      var c := CountTbls(s, ts[..|ts| - 1]);
      DbCounter(c.rows + t.rows, Max(c.rowMax, t.rows), c.tables + 1, c.columns + ColumnCount(t.cols),
                Merge(c.shared, TblShares(s)(t)))
  }

  function CountDb(s: Setters, d: Db): DbCounter {
    CountTbls(s, d.tbls)
  }

  /** The totals over the accepted databases. */
  function CountDbs(s: Setters, ds: seq<Db>): GeneratorCounter {
    if ds == [] then NoDatabases else Update(CountDbs(s, ds[..|ds| - 1]), CountDb(s, ds[|ds| - 1]))
  }
}
