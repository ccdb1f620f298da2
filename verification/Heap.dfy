/** The one allocation that holds all specifications: its cells, how they are linked, and a reader
    that knows nothing but the pointers. */
module Heap {
  import opened Octets
  import opened Columns

  /** sizeof(struct DbSpec), sizeof(struct TblSpec) and sizeof(struct ColSpec). */
  datatype Sizes = Sizes(db: nat, tbl: nat, col: nat)

  predicate SizesOk(z: Sizes) {
    0 < z.db && 0 < z.tbl <= z.col && z.db + z.tbl <= 3 * z.col
  }

  /** Pointers are byte offsets into the allocation, None is NULL. */
  datatype DbSpec = DbSpec(name: Arg, tbls: nat, next: Option<nat>)

  datatype TblSpec = TblSpec(name: Arg, rows: nat, from: nat, until: nat, next: Option<nat>)

  /** What starts at a byte. */
  datatype Cell = Free | DbCell(db: DbSpec) | TblCell(tbl: TblSpec) | ColCell(col: ColSpec)

  type Mem = seq<Cell>

  /** What the pointers lead to. */
  datatype TblView = TblView(name: Arg, rows: nat, cols: seq<ColSpec>)

  datatype DbView = DbView(name: Arg, tbls: seq<TblView>)

  // ---------- layout ----------

  /** The columns fill the bytes from `o` to `end`. */
  ghost predicate ColsIn(z: Sizes, mem: Mem, o: nat, cs: seq<ColSpec>, end: nat)
    decreases |cs|
  {
    if cs == [] then o == end
    else
      && 0 < z.col && o + z.col <= end <= |mem|
      && mem[end - z.col].ColCell? && Seen(mem[end - z.col].col) == cs[|cs| - 1]
      && ColsIn(z, mem, o, cs[..|cs| - 1], end - z.col)
  }

  /** A complete table and its columns fill the bytes from `o` to `end`. */
  ghost predicate TblIn(z: Sizes, mem: Mem, o: nat, t: TblView, end: nat, next: Option<nat>) {
    && o < |mem| && mem[o] == TblCell(TblSpec(t.name, t.rows, o + z.tbl, end, next))
    && ColsIn(z, mem, o + z.tbl, t.cols, end)
  }

  /** Tables, each linked to the one that follows it, fill the bytes from `o` to `end`. */
  ghost predicate TblsIn(z: Sizes, mem: Mem, o: nat, ts: seq<TblView>, end: nat, next: Option<nat>)
    decreases |ts|
  {
    if ts == [] then o == end
    else exists p: nat :: TblIn(z, mem, p, ts[|ts| - 1], end, next) && TblsIn(z, mem, o, ts[..|ts| - 1], p, Some(p))
  }

  ghost predicate DbIn(z: Sizes, mem: Mem, o: nat, d: DbView, end: nat, next: Option<nat>) {
    && o < |mem| && mem[o] == DbCell(DbSpec(d.name, o + z.db, next))
    && TblsIn(z, mem, o + z.db, d.tbls, end, None)
  }

  ghost predicate DbsIn(z: Sizes, mem: Mem, o: nat, ds: seq<DbView>, end: nat, next: Option<nat>)
    decreases |ds|
  {
    if ds == [] then o == end
    else exists p: nat :: DbIn(z, mem, p, ds[|ds| - 1], end, next) && DbsIn(z, mem, o, ds[..|ds| - 1], p, Some(p))
  }

  /** valid.head holds what it should when `o` is where the first database would go. */
  predicate HeadOk(head: Option<nat>, ds: seq<DbView>) {
    head == if ds == [] then None else Some(0)
  }

  // ---------- writes ----------

  /** A record of `size` bytes is written at `o`: whatever began at its other bytes is gone. */
  function Put(mem: Mem, o: nat, size: nat, cell: Cell): (after: Mem)
    requires o < |mem|
    ensures |after| == |mem| && after[o] == cell
    ensures forall k: nat {:trigger after[k]} :: k < |mem| && k != o ==> after[k] == if o < k < o + size then Free else mem[k]
  {
    seq(|mem|, k requires 0 <= k < |mem| => if k == o then cell else if o < k < o + size then Free else mem[k])
  }

  // ---------- frames ----------

  ghost predicate Same(mem: Mem, mem': Mem, until: nat) {
    |mem| == |mem'| && until <= |mem| && forall k: nat {:trigger mem[k]} {:trigger mem'[k]} :: k < until ==> mem[k] == mem'[k]
  }

  /** Equal from `lo` to `hi`. */
  ghost predicate SameBetween(mem: Mem, mem': Mem, lo: nat, hi: nat) {
    |mem| == |mem'| && forall k: nat {:trigger mem[k]} {:trigger mem'[k]} :: lo <= k < hi && k < |mem| ==> mem[k] == mem'[k]
  }

  lemma SameAt(mem: Mem, mem': Mem, until: nat, o: nat)
    requires Same(mem, mem', until) && o < until
    ensures mem[o] == mem'[o]
  {
  }

  lemma SameThrough(m0: Mem, m1: Mem, m2: Mem, until: nat)
    requires Same(m0, m1, until) && Same(m1, m2, until)
    ensures Same(m0, m2, until)
  {
  }

  lemma {:induction false} ColsOrder(z: Sizes, mem: Mem, o: nat, cs: seq<ColSpec>, end: nat)
    requires ColsIn(z, mem, o, cs, end)
    ensures o <= end
    decreases |cs|
  {
    if cs != [] {
      ColsOrder(z, mem, o, cs[..|cs| - 1], end - z.col);
    }
  }

  lemma {:induction false} ColsKept(z: Sizes, mem: Mem, mem': Mem, o: nat, cs: seq<ColSpec>, end: nat)
    requires 0 < z.col && ColsIn(z, mem, o, cs, end) && SameBetween(mem, mem', o, end)
    ensures ColsIn(z, mem', o, cs, end)
    decreases |cs|
  {
    if cs != [] {
      ColsOrder(z, mem, o, cs[..|cs| - 1], end - z.col);
      ColsKept(z, mem, mem', o, cs[..|cs| - 1], end - z.col);
    }
  }

  /** The end of the columns completes a table. */
  lemma TblCompleted(z: Sizes, mem: Mem, o: nat, first: nat, cs: seq<ColSpec>, end: nat)
    requires SizesOk(z) && o < |mem| && mem[o].TblCell? && mem[o].tbl.from == first == o + z.tbl && ColsIn(z, mem, first, cs, end)
    ensures var t := mem[o].tbl;
            TblIn(z, Put(mem, o, z.tbl, TblCell(t.(until := end))), o, TblView(t.name, t.rows, cs), end, t.next)
  {
    ColsKept(z, mem, Put(mem, o, z.tbl, TblCell(mem[o].tbl.(until := end))), first, cs, end);
  }

  /** A write at the start of a table. */
  lemma TblChanged(z: Sizes, mem: Mem, o: nat, t: TblView, end: nat, next: Option<nat>, later: Option<nat>)
    requires SizesOk(z) && TblIn(z, mem, o, t, end, next)
    ensures TblIn(z, Put(mem, o, z.tbl, TblCell(TblSpec(t.name, t.rows, o + z.tbl, end, later))), o, t, end, later)
  {
    ColsKept(z, mem, Put(mem, o, z.tbl, TblCell(TblSpec(t.name, t.rows, o + z.tbl, end, later))), o + z.tbl, t.cols, end);
  }

  lemma SameShorter(mem: Mem, mem': Mem, until: nat, end: nat)
    requires Same(mem, mem', until) && end <= until
    ensures Same(mem, mem', end)
  {
  }

  lemma {:induction false} TblsOrder(z: Sizes, mem: Mem, o: nat, ts: seq<TblView>, end: nat, next: Option<nat>)
    requires SizesOk(z) && TblsIn(z, mem, o, ts, end, next)
    ensures o <= end && (ts != [] ==> o < end)
    decreases |ts|
  {
    if ts != [] {
      var p: nat :| TblIn(z, mem, p, ts[|ts| - 1], end, next) && TblsIn(z, mem, o, ts[..|ts| - 1], p, Some(p));
      ColsOrder(z, mem, p + z.tbl, ts[|ts| - 1].cols, end);
      TblsOrder(z, mem, o, ts[..|ts| - 1], p, Some(p));
    }
  }

  lemma TblKept(z: Sizes, mem: Mem, mem': Mem, o: nat, t: TblView, end: nat, next: Option<nat>)
    requires SizesOk(z) && TblIn(z, mem, o, t, end, next) && SameBetween(mem, mem', o, end)
    ensures TblIn(z, mem', o, t, end, next)
  {
    ColsOrder(z, mem, o + z.tbl, t.cols, end);
    ColsKept(z, mem, mem', o + z.tbl, t.cols, end);
  }

  lemma {:induction false} TblsKept(z: Sizes, mem: Mem, mem': Mem, o: nat, ts: seq<TblView>, end: nat, next: Option<nat>)
    requires SizesOk(z) && TblsIn(z, mem, o, ts, end, next) && SameBetween(mem, mem', o, end)
    ensures TblsIn(z, mem', o, ts, end, next) && o <= end
    decreases |ts|
  {
    TblsOrder(z, mem, o, ts, end, next);
    if ts != [] {
      var init, last := ts[..|ts| - 1], ts[|ts| - 1];
      var p: nat :| TblIn(z, mem, p, last, end, next) && TblsIn(z, mem, o, init, p, Some(p));
      TblsOrder(z, mem, o, init, p, Some(p));
      ColsOrder(z, mem, p + z.tbl, last.cols, end);
      TblKept(z, mem, mem', p, last, end, next);
      TblsKept(z, mem, mem', o, init, p, Some(p));
    }
  }

  lemma DbKept(z: Sizes, mem: Mem, mem': Mem, o: nat, d: DbView, end: nat, next: Option<nat>)
    requires SizesOk(z) && DbIn(z, mem, o, d, end, next) && SameBetween(mem, mem', o, end)
    ensures DbIn(z, mem', o, d, end, next) && o < end
  {
    TblsKept(z, mem, mem', o + z.db, d.tbls, end, None);
  }

  lemma DbBelow(z: Sizes, mem: Mem, o: nat, d: DbView, end: nat, next: Option<nat>)
    requires SizesOk(z) && DbIn(z, mem, o, d, end, next)
    ensures o < end
  {
    TblsOrder(z, mem, o + z.db, d.tbls, end, None);
  }

  lemma {:induction false} DbsKept(z: Sizes, mem: Mem, mem': Mem, o: nat, ds: seq<DbView>, end: nat, next: Option<nat>)
    requires SizesOk(z) && DbsIn(z, mem, o, ds, end, next) && SameBetween(mem, mem', o, end)
    ensures DbsIn(z, mem', o, ds, end, next) && o <= end
    decreases |ds|
  {
    DbsOrder(z, mem, o, ds, end, next);
    if ds != [] {
      var init, last := ds[..|ds| - 1], ds[|ds| - 1];
      var p: nat :| DbIn(z, mem, p, last, end, next) && DbsIn(z, mem, o, init, p, Some(p));
      DbsOrder(z, mem, o, init, p, Some(p));
      DbBelow(z, mem, p, last, end, next);
      DbKept(z, mem, mem', p, last, end, next);
      DbsKept(z, mem, mem', o, init, p, Some(p));
    }
  }

  lemma {:induction false} DbsOrder(z: Sizes, mem: Mem, o: nat, ds: seq<DbView>, end: nat, next: Option<nat>)
    requires SizesOk(z) && DbsIn(z, mem, o, ds, end, next)
    ensures o <= end
    decreases |ds|
  {
    if ds != [] {
      var init, last := ds[..|ds| - 1], ds[|ds| - 1];
      var p: nat :| DbIn(z, mem, p, last, end, next) && DbsIn(z, mem, o, init, p, Some(p));
      DbBelow(z, mem, p, last, end, next);
      DbsOrder(z, mem, o, init, p, Some(p));
    }
  }

  /** A write to the link of a database. */
  lemma DbChanged(z: Sizes, mem: Mem, o: nat, d: DbView, end: nat, next: Option<nat>, later: Option<nat>)
    requires SizesOk(z) && DbIn(z, mem, o, d, end, next)
    ensures DbIn(z, Put(mem, o, z.db, DbCell(mem[o].db.(next := later))), o, d, end, later)
  {
    TblsKept(z, mem, Put(mem, o, z.db, DbCell(mem[o].db.(next := later))), o + z.db, d.tbls, end, None);
  }

  /** The last of some linked databases gets another link. */
  lemma DbsRelinked(z: Sizes, mem: Mem, o: nat, p: nat, ds: seq<DbView>, end: nat, next: Option<nat>, later: Option<nat>)
    requires SizesOk(z) && ds != [] && DbIn(z, mem, p, ds[|ds| - 1], end, next) && DbsIn(z, mem, o, ds[..|ds| - 1], p, Some(p))
    ensures DbsIn(z, Put(mem, p, z.db, DbCell(mem[p].db.(next := later))), o, ds, end, later)
  {
    var after := Put(mem, p, z.db, DbCell(mem[p].db.(next := later)));
    DbChanged(z, mem, p, ds[|ds| - 1], end, next, later);
    DbsKept(z, mem, after, o, ds[..|ds| - 1], p, Some(p));
  }

  lemma {:induction false} ColsJoin(z: Sizes, mem: Mem, o: nat, cs: seq<ColSpec>, mid: nat, ds: seq<ColSpec>, end: nat)
    requires ColsIn(z, mem, o, cs, mid) && ColsIn(z, mem, mid, ds, end)
    ensures ColsIn(z, mem, o, cs + ds, end)
    decreases |ds|
  {
    if ds == [] {
      assert cs + ds == cs;
    } else {
      ColsJoin(z, mem, o, cs, mid, ds[..|ds| - 1], end - z.col);
      ColsOrder(z, mem, mid, ds[..|ds| - 1], end - z.col);
      ColsOrder(z, mem, o, cs, mid);
      assert (cs + ds)[..|cs + ds| - 1] == cs + ds[..|ds| - 1];
    }
  }

  /** One more column at the end. */
  lemma ColsAppend(z: Sizes, mem: Mem, o: nat, cs: seq<ColSpec>, end: nat, c: ColSpec)
    requires 0 < z.col && ColsIn(z, mem, o, cs, end) && end + z.col <= |mem| && mem[end].ColCell? && Seen(mem[end].col) == c
    ensures ColsIn(z, mem, o, cs + [c], end + z.col)
  {
    ColsOrder(z, mem, o, cs, end);
    assert (cs + [c])[..|cs|] == cs;
  }

  lemma OneCell(z: Sizes, mem: Mem, o: nat, end: nat, c: ColSpec)
    requires 0 < z.col && end == o + z.col <= |mem| && mem[o].ColCell? && Seen(mem[o].col) == c
    ensures ColsIn(z, mem, o, [c], end)
  {
    assert [c][..0] == [];
  }

  /** Another column at the start. */
  lemma {:induction false} ColsChangeFirst(z: Sizes, mem: Mem, mem': Mem, o: nat, cs: seq<ColSpec>, end: nat, c: ColSpec)
    requires ColsIn(z, mem, o, cs, end) && cs != []
    requires o < |mem| && c.name.Some? && mem' == Put(mem, o, z.col, ColCell(c))
    ensures ColsIn(z, mem', o, cs[0 := c], end) && mem[o].ColCell?
    decreases |cs|
  {
    var n := |cs| - 1;
    if n == 0 {
      assert cs[..0] == [] && cs[0 := c][..0] == [];
    } else {
      ColsOrder(z, mem, o, cs[..n], end - z.col);
      assert o + z.col <= end - z.col;
      ColsChangeFirst(z, mem, mem', o, cs[..n], end - z.col, c);
      assert cs[0 := c][..n] == cs[..n][0 := c];
    }
  }

  lemma {:induction false} FirstCell(z: Sizes, mem: Mem, o: nat, cs: seq<ColSpec>, end: nat)
    requires ColsIn(z, mem, o, cs, end) && cs != []
    ensures o + z.col <= |mem| && mem[o].ColCell? && Seen(mem[o].col) == cs[0]
    decreases |cs|
  {
    if |cs| > 1 {
      FirstCell(z, mem, o, cs[..|cs| - 1], end - z.col);
    } else {
      assert cs[..0] == [];
    }
  }

  /** The first ColSpec of a JOIN gets its name and type. */
  lemma NameFirst(z: Sizes, mem: Mem, o: nat, cs: seq<ColSpec>, end: nat, name: Arg, join: Join)
    requires ColsIn(z, mem, o, cs, end) && cs != []
    ensures o + z.col <= end && o + z.col <= |mem| && mem[o].ColCell?
    ensures ColsIn(z, Put(mem, o, z.col, ColCell(Named(mem[o].col, name, join))), o, cs[0 := Named(cs[0], name, join)], end)
  {
    FirstCell(z, mem, o, cs, end);
    ColsOrder(z, mem, o, cs[..|cs| - 1], end - z.col);
    var first := Named(mem[o].col, name, join);
    assert first == Named(cs[0], name, join);
    ColsChangeFirst(z, mem, Put(mem, o, z.col, ColCell(first)), o, cs, end, first);
  }

  // ---------- space ----------

  /** How far specifications may reach when the cursor is at `p`: two arguments pay for one
      ColSpec. */
  function Bound(z: Sizes, p: nat): int {
    if p < 2 then z.db + z.tbl - 3 * z.col else Bound(z, p - 2) + z.col
  }

  /** The size of the allocation for `n` arguments. */
  function AllocSize(z: Sizes, n: nat): nat
    requires n >= 8
  {
    z.db + z.tbl + ((n - 8) / 2 + 1) * z.col
  }

  lemma {:induction false} BoundIsLinear(z: Sizes, p: nat)
    ensures Bound(z, p) == z.db + z.tbl + (p / 2 - 3) * z.col
    decreases p
  {
    if p >= 2 {
      BoundIsLinear(z, p - 2);
      var q := p / 2;
      assert (p - 2) / 2 == q - 1;
      assert (q - 1 - 3) * z.col + z.col == (q - 3) * z.col;
    }
  }

  lemma {:induction false} AllocIsBound(z: Sizes, n: nat)
    requires n >= 8
    ensures AllocSize(z, n) == Bound(z, n)
  {
    BoundIsLinear(z, n);
    assert (n - 8) / 2 + 1 == n / 2 - 3;
  }

  lemma {:induction false} BoundMonotone(z: Sizes, p: nat, q: nat)
    requires p <= q
    ensures Bound(z, p) <= Bound(z, q)
    decreases q
  {
    if p < q && q >= 2 {
      BoundMonotone(z, if p < 2 then 0 else p - 2, q - 2);
    }
  }

  // ---------- the reader ----------

  /** Steps from `from` up to `until`, a ColSpec at a time. */
  function ReadCols(z: Sizes, mem: Mem, from: nat, until: nat): seq<ColSpec>
    decreases until - from
  {
    if 0 < z.col && from < until && from < |mem| && mem[from].ColCell? then
      [Seen(mem[from].col)] + ReadCols(z, mem, from + z.col, until)
    else []
  }

  /** Follows `next` from table to table; a pointer that does not go forward ends the walk. */
  function ReadTbls(z: Sizes, mem: Mem, p: Option<nat>): seq<TblView>
    decreases if p.Some? then |mem| - p.value else -1
  {
    if p.Some? && p.value < |mem| && mem[p.value].TblCell? then
      var t := mem[p.value].tbl;
      var rest := if t.next.Some? && t.next.value <= p.value then [] else ReadTbls(z, mem, t.next);
      [TblView(t.name, t.rows, ReadCols(z, mem, t.from, t.until))] + rest
    else []
  }

  function ReadDbs(z: Sizes, mem: Mem, p: Option<nat>): seq<DbView>
    decreases if p.Some? then |mem| - p.value else -1
  {
    if p.Some? && p.value < |mem| && mem[p.value].DbCell? then
      var d := mem[p.value].db;
      var rest := if d.next.Some? && d.next.value <= p.value then [] else ReadDbs(z, mem, d.next);
      [DbView(d.name, ReadTbls(z, mem, Some(d.tbls)))] + rest
    else []
  }

  lemma {:induction false} ColsAreRead(z: Sizes, mem: Mem, o: nat, cs: seq<ColSpec>, end: nat, until: nat)
    requires 0 < z.col && ColsIn(z, mem, o, cs, end) && end <= until
    ensures ReadCols(z, mem, o, until) == cs + ReadCols(z, mem, end, until)
    decreases |cs|
  {
    if cs == [] {
      assert cs + ReadCols(z, mem, end, until) == ReadCols(z, mem, end, until);
    } else {
      ColsAreRead(z, mem, o, cs[..|cs| - 1], end - z.col, until);
      assert cs == cs[..|cs| - 1] + [cs[|cs| - 1]];
    }
  }

  lemma TblIsRead(z: Sizes, mem: Mem, o: nat, t: TblView, end: nat, next: Option<nat>)
    requires SizesOk(z) && TblIn(z, mem, o, t, end, next) && end <= |mem|
    ensures ReadCols(z, mem, o + z.tbl, end) == t.cols && o < end
  {
    ColsAreRead(z, mem, o + z.tbl, t.cols, end, end);
    ColsOrder(z, mem, o + z.tbl, t.cols, end);
  }

  lemma TblIsReadFirst(z: Sizes, mem: Mem, p: nat, t: TblView, end: nat, next: Option<nat>)
    requires SizesOk(z) && TblIn(z, mem, p, t, end, next) && end <= |mem| && (next.Some? ==> next.value == end)
    ensures ReadTbls(z, mem, Some(p)) == [t] + ReadTbls(z, mem, next) && p < end
  {
    TblIsRead(z, mem, p, t, end, next);
  }

  lemma Snoc<T>(xs: seq<T>, rest: seq<T>)
    requires xs != []
    ensures xs[..|xs| - 1] + ([xs[|xs| - 1]] + rest) == xs + rest
  {
  }

  lemma {:induction false} TblsAreRead(z: Sizes, mem: Mem, o: nat, ts: seq<TblView>, end: nat, next: Option<nat>)
    requires SizesOk(z) && TblsIn(z, mem, o, ts, end, next) && ts != [] && end <= |mem|
    requires next.Some? ==> next.value == end
    ensures ReadTbls(z, mem, Some(o)) == ts + ReadTbls(z, mem, next)
    decreases |ts|
  {
    var n := |ts| - 1;
    var p: nat :| TblIn(z, mem, p, ts[n], end, next) && TblsIn(z, mem, o, ts[..n], p, Some(p));
    TblIsReadFirst(z, mem, p, ts[n], end, next);
    Snoc(ts, ReadTbls(z, mem, next));
    if n > 0 {
      TblsAreRead(z, mem, o, ts[..n], p, Some(p));
    } else {
      assert ts[..n] == [] && o == p;
    }
  }

  lemma DbIsReadFirst(z: Sizes, mem: Mem, p: nat, d: DbView, end: nat, next: Option<nat>)
    requires SizesOk(z) && DbIn(z, mem, p, d, end, next) && end <= |mem| && (next.Some? ==> next.value == end) && d.tbls != []
    ensures ReadDbs(z, mem, Some(p)) == [d] + ReadDbs(z, mem, next) && p < end
  {
    DbKept(z, mem, mem, p, d, end, next);
    TblsAreRead(z, mem, p + z.db, d.tbls, end, None);
    assert ReadTbls(z, mem, None) == [];
    assert ReadTbls(z, mem, Some(p + z.db)) == d.tbls;
  }

  lemma {:induction false} DbsAreRead(z: Sizes, mem: Mem, o: nat, ds: seq<DbView>, end: nat, next: Option<nat>)
    requires SizesOk(z) && DbsIn(z, mem, o, ds, end, next) && ds != [] && end <= |mem|
    requires (forall d <- ds :: d.tbls != []) && (next.Some? ==> next.value == end)
    ensures ReadDbs(z, mem, Some(o)) == ds + ReadDbs(z, mem, next)
    decreases |ds|
  {
    var n := |ds| - 1;
    var p: nat :| DbIn(z, mem, p, ds[n], end, next) && DbsIn(z, mem, o, ds[..n], p, Some(p));
    DbIsReadFirst(z, mem, p, ds[n], end, next);
    Snoc(ds, ReadDbs(z, mem, next));
    if n > 0 {
      DbsAreRead(z, mem, o, ds[..n], p, Some(p));
    } else {
      assert ds[..n] == [] && o == p;
    }
  }

  /** A chain that starts at 0 and ends with NULL: the reader visits just its databases, in order. */
  lemma ChainIsRead(z: Sizes, mem: Mem, ds: seq<DbView>, end: nat, head: Option<nat>)
    requires SizesOk(z) && DbsIn(z, mem, 0, ds, end, None) && end <= |mem| && HeadOk(head, ds)
    requires forall d <- ds :: d.tbls != []
    ensures ReadDbs(z, mem, head) == ds
  {
    if ds != [] {
      DbsAreRead(z, mem, 0, ds, end, None);
    }
  }
}
