/** How the ColSpecs of a table fall into the declared columns, and how many bytes and counts the
    accepted databases come to. */
module Structure {
  import opened Octets
  import opened Specs
  import opened Columns
  import opened Counters
  import opened Heap
  import opened Machine

  // ---------- named bases and unnamed members ----------

  /** Splits ColSpecs before each that has a name. */
  function Groups(cells: seq<ColSpec>): seq<seq<ColSpec>> {
    if cells == [] then []
    else
      var init, last := Groups(cells[..|cells| - 1]), cells[|cells| - 1];
      if last.name.Some? || init == [] then init + [[last]]
      else init[|init| - 1 := init[|init| - 1] + [last]]
  }

  /** A plain column keeps its name, a JOIN member has none. */
  ghost predicate NamesAsSet(s: Setters) {
    && (forall name: Arg, m: Member, rows: nat {:trigger s.plain(name, m, rows)} :: s.plain(name, m, rows).name == Some(name))
    && (forall name: Arg, m: Member {:trigger s.member(name, m)} :: s.member(name, m).name == None)
  }

  lemma StandardNames()
    ensures NamesAsSet(Standard())
  {
  }

  lemma {:induction false} MembersAreUnnamed(s: Setters, name: Arg, ms: seq<Member>)
    requires NamesAsSet(s)
    ensures forall c <- MembersBy(s, name, ms) :: c.name == None
    decreases |ms|
  {
    if ms != [] {
      MembersAreUnnamed(s, name, ms[..|ms| - 1]);
    }
  }

  /** One named ColSpec, then unnamed ones. */
  predicate IsGroup(cells: seq<ColSpec>, name: Arg) {
    cells != [] && cells[0].name == Some(name) && forall i :: 1 <= i < |cells| ==> cells[i].name == None
  }

  lemma BodyIsGroup(s: Setters, name: Arg, b: Body, rows: nat)
    requires NamesAsSet(s) && Cells(b) > 0
    ensures IsGroup(BodyBy(s, name, b, rows), name)
  {
    if b.Joined? {
      MembersAreUnnamed(s, name, b.members);
    }
  }

  lemma {:induction false} GroupAtEnd(before: seq<ColSpec>, cells: seq<ColSpec>, name: Arg)
    requires IsGroup(cells, name)
    ensures Groups(before + cells) == Groups(before) + [cells]
    decreases |cells|
  {
    var n := |cells| - 1;
    var all := before + cells;
    assert all[..|all| - 1] == before + cells[..n];
    if n == 0 {
      assert before + cells[..0] == before && cells == [cells[0]];
    } else {
      GroupAtEnd(before, cells[..n], name);
      assert cells == cells[..n] + [cells[n]];
    }
  }

  lemma GroupsEnd(before: seq<ColSpec>, cells: seq<ColSpec>, name: Arg, all: seq<ColSpec>)
    requires IsGroup(cells, name) && all == before + cells
    ensures var groups := Groups(all);
            && |groups| == |Groups(before)| + 1 && groups[|groups| - 1] == cells
            && forall i :: 0 <= i < |Groups(before)| ==> groups[i] == Groups(before)[i]
  {
    GroupAtEnd(before, cells, name);
  }

  lemma {:induction false} FlattenGroups(one: Col -> seq<ColSpec>, cs: seq<Col>)
    requires forall i :: 0 <= i < |cs| ==> IsGroup(one(cs[i]), cs[i].name)
    ensures var groups := Groups(Flatten(one, cs)); |groups| == |cs| && forall i :: 0 <= i < |cs| ==> groups[i] == one(cs[i])
    decreases |cs|
  {
    if cs != [] {
      var n := |cs| - 1;
      FlattenGroups(one, cs[..n]);
      GroupsEnd(Flatten(one, cs[..n]), one(cs[n]), cs[n].name, Flatten(one, cs));
    }
  }

  /** Splitting the ColSpecs of an accepted table at their names gives exactly the declared
      columns: a plain column by itself, a JOIN as its named base followed by its other members
      without names. */
  lemma ColumnsAreGroups(t: Tbl)
    requires TblOk(t)
    ensures var groups := Groups(View(Standard(), t).cols);
            && |groups| == |t.cols|
            && forall i :: 0 <= i < |t.cols| ==>
                 groups[i] == BodyBy(Standard(), t.cols[i].name, t.cols[i].body, t.rows) && IsGroup(groups[i], t.cols[i].name)
  {
    StandardNames();
    forall i | 0 <= i < |t.cols| ensures Cells(t.cols[i].body) > 0 {
      assert ColOk(t.cols[i], t.rows);
    }
    GroupsOfTable(Standard(), t);
  }

  lemma GroupsOfTable(s: Setters, t: Tbl)
    requires NamesAsSet(s) && forall i :: 0 <= i < |t.cols| ==> Cells(t.cols[i].body) > 0
    ensures var groups := Groups(View(s, t).cols);
            && |groups| == |t.cols|
            && forall i :: 0 <= i < |t.cols| ==>
                 groups[i] == BodyBy(s, t.cols[i].name, t.cols[i].body, t.rows) && IsGroup(groups[i], t.cols[i].name)
  {
    var one := CellsBy(s, t.rows);
    forall i | 0 <= i < |t.cols| ensures IsGroup(one(t.cols[i]), t.cols[i].name) {
      BodyIsGroup(s, t.cols[i].name, t.cols[i].body, t.rows);
    }
    FlattenGroups(one, t.cols);
  }

  /** The columns that are counted are the ColSpecs that are stored, JOIN members included. */
  lemma {:induction false} ColumnsAreCells(s: Setters, cs: seq<Col>, rows: nat)
    ensures ColumnCount(cs) == |Flatten(CellsBy(s, rows), cs)|
    decreases |cs|
  {
    if cs != [] {
      ColumnsAreCells(s, cs[..|cs| - 1], rows);
    }
  }

  // ---------- counters ----------

  function AllTbls(ds: seq<Db>): seq<Tbl> {
    if ds == [] then [] else AllTbls(ds[..|ds| - 1]) + ds[|ds| - 1].tbls
  }

  function SumRows(ts: seq<Tbl>): nat {
    if ts == [] then 0 else SumRows(ts[..|ts| - 1]) + ts[|ts| - 1].rows
  }

  /** The ColSpecs that the tables' intervals hold. */
  function SumCells(s: Setters, ts: seq<Tbl>): nat {
    if ts == [] then 0 else SumCells(s, ts[..|ts| - 1]) + |View(s, ts[|ts| - 1]).cols|
  }

  ghost predicate IsMaxRows(max: nat, ts: seq<Tbl>) {
    (forall t <- ts :: t.rows <= max) && (max == 0 || exists t <- ts :: t.rows == max)
  }

  lemma {:induction false} SumsJoin(s: Setters, ts: seq<Tbl>, us: seq<Tbl>)
    ensures SumRows(ts + us) == SumRows(ts) + SumRows(us) && SumCells(s, ts + us) == SumCells(s, ts) + SumCells(s, us)
    decreases |us|
  {
    if us == [] {
      assert ts + us == ts;
    } else {
      var n := |us| - 1;
      assert (ts + us)[..|ts + us| - 1] == ts + us[..n];
      SumsJoin(s, ts, us[..n]);
    }
  }

  lemma MaxJoins(m: nat, ts: seq<Tbl>, n: nat, us: seq<Tbl>)
    requires IsMaxRows(m, ts) && IsMaxRows(n, us)
    ensures IsMaxRows(Max(m, n), ts + us)
  {
    if m >= n && m > 0 {
      var t :| t in ts && t.rows == m;
      assert t in ts + us;
    } else if n > 0 {
      var t :| t in us && t.rows == n;
      assert t in ts + us;
    }
  }

  lemma {:induction false} TblsAreCounted(s: Setters, ts: seq<Tbl>)
    ensures var c := CountTbls(s, ts);
            && c.rows == SumRows(ts) && c.tables == |ts| && c.columns == SumCells(s, ts) && IsMaxRows(c.rowMax, ts)
            && c.shared == Fold(TblShares(s), ts)
    decreases |ts|
  {
    if ts != [] {
      var init, t := ts[..|ts| - 1], ts[|ts| - 1];
      TblsAreCounted(s, init);
      ColumnsAreCells(s, t.cols, t.rows);
      assert [t][0] == t && IsMaxRows(t.rows, [t]);
      assert ts == init + [t];
      MaxJoins(CountTbls(s, init).rowMax, init, t.rows, [t]);
    }
  }

  /** Over the whole run the generator counts exactly what the accepted databases hold: the rows and
      the largest row count of their tables, the tables, the ColSpecs in their intervals, JOIN
      members included, and the databases themselves. */
  lemma {:induction false} CountersAreTotals(s: Setters, ds: seq<Db>)
    ensures var c, ts := CountDbs(s, ds), AllTbls(ds);
            && c.rows == SumRows(ts) && c.tables == |ts| && c.columns == SumCells(s, ts) && IsMaxRows(c.rowMax, ts)
            && c.databases == |ds|
    decreases |ds|
  {
    if ds != [] {
      var init, d := ds[..|ds| - 1], ds[|ds| - 1];
      CountersAreTotals(s, init);
      TblsAreCounted(s, d.tbls);
      SumsJoin(s, AllTbls(init), d.tbls);
      MaxJoins(CountDbs(s, init).rowMax, AllTbls(init), CountDb(s, d).rowMax, d.tbls);
    }
  }

  // ---------- bytes ----------

  function ColBytes(z: Sizes, n: nat): nat {
    if n == 0 then 0 else ColBytes(z, n - 1) + z.col
  }

  function TblBytes(z: Sizes, ts: seq<TblView>): nat {
    if ts == [] then 0 else TblBytes(z, ts[..|ts| - 1]) + z.tbl + ColBytes(z, |ts[|ts| - 1].cols|)
  }

  function DbBytes(z: Sizes, ds: seq<DbView>): nat {
    if ds == [] then 0 else DbBytes(z, ds[..|ds| - 1]) + z.db + TblBytes(z, ds[|ds| - 1].tbls)
  }

  lemma {:induction false} ColsTile(z: Sizes, mem: Mem, o: nat, cs: seq<ColSpec>, end: nat)
    requires ColsIn(z, mem, o, cs, end)
    ensures end == o + ColBytes(z, |cs|)
    decreases |cs|
  {
    if cs != [] {
      ColsTile(z, mem, o, cs[..|cs| - 1], end - z.col);
    }
  }

  lemma {:induction false} TblsTile(z: Sizes, mem: Mem, o: nat, ts: seq<TblView>, end: nat, next: Option<nat>)
    requires TblsIn(z, mem, o, ts, end, next)
    ensures end == o + TblBytes(z, ts)
    decreases |ts|
  {
    if ts != [] {
      var p: nat :| TblIn(z, mem, p, ts[|ts| - 1], end, next) && TblsIn(z, mem, o, ts[..|ts| - 1], p, Some(p));
      TblsTile(z, mem, o, ts[..|ts| - 1], p, Some(p));
      ColsTile(z, mem, p + z.tbl, ts[|ts| - 1].cols, end);
    }
  }

  lemma DbTiles(z: Sizes, mem: Mem, o: nat, d: DbView, end: nat, next: Option<nat>)
    requires DbIn(z, mem, o, d, end, next)
    ensures end == o + z.db + TblBytes(z, d.tbls)
  {
    TblsTile(z, mem, o + z.db, d.tbls, end, None);
  }

  /** The accepted databases tile the allocation from its first byte: no gap and no overlap. */
  lemma {:induction false} DbsTile(z: Sizes, mem: Mem, o: nat, ds: seq<DbView>, end: nat, next: Option<nat>)
    requires DbsIn(z, mem, o, ds, end, next)
    ensures end == o + DbBytes(z, ds)
    decreases |ds|
  {
    if ds != [] {
      var init, last := ds[..|ds| - 1], ds[|ds| - 1];
      var p: nat :| DbIn(z, mem, p, last, end, next) && DbsIn(z, mem, o, init, p, Some(p));
      DbsTile(z, mem, o, init, p, Some(p));
      DbTiles(z, mem, p, last, end, next);
    }
  }
}
