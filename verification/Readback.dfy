/** What is stored still says what was asked for: the specifications are read back from names, row
    counts, kinds, groups and base texts alone. */
module Readback {
  import opened Octets
  import opened Numbers
  import opened Specs
  import opened Columns
  import opened Heap
  import opened Machine
  import opened Structure
  import opened WellFormed
  import opened Tokens
  import opened Grammar
  import opened Printer
  import ColumnTypes
  import JoinCells

  function Map<T, U>(f: T -> U, xs: seq<T>): (ys: seq<U>)
    ensures |ys| == |xs| && forall i :: 0 <= i < |xs| ==> ys[i] == f(xs[i])
  {
    seq(|xs|, i requires 0 <= i < |xs| => f(xs[i]))
  }

  // ---------- reading ----------

  /** The number that a base text spells. */
  function Spelled(s: Sign, a: Arg): int {
    if s.Signed? && ParseInt(a).Some? then ParseInt(a).value
    else if s.Unsigned? && ParseUint(a).Some? then ParseUint(a).value
    else 0
  }

  /** A string that is based on the name of its column is a default string. */
  function KindRead(name: Arg, c: ColSpec): Kind {
    match c.kind
    case IntFixed(s, _) => IntFixed(s, Spelled(s, c.base))
    case StrDefault => if c.base == name then StrDefault else StrUnique(c.base)
    case StrUnique(_) => StrUnique(c.base)
    case StrFixed(_) => StrFixed(c.base)
    case _ => c.kind
  }

  function MemberRead(name: Arg): ColSpec -> Member {
    (c: ColSpec) => Member(KindRead(name, c), c.grp)
  }

  /** A column by itself is a plain one. */
  function BodyRead(name: Arg, cells: seq<ColSpec>): Body {
    if |cells| == 1 then Plain(MemberRead(name)(cells[0])) else Joined(Map(MemberRead(name), cells))
  }

  function ColRead(cells: seq<ColSpec>): Col {
    var name := if cells != [] && cells[0].name.Some? then cells[0].name.value else [];
    Col(name, BodyRead(name, cells))
  }

  function TblRead(t: TblView): Tbl {
    Tbl(t.name, t.rows, Map(ColRead, Groups(t.cols)))
  }

  function DbRead(d: DbView): Db {
    Db(d.name, Map(TblRead, d.tbls))
  }

  function DbsRead(ds: seq<DbView>): seq<Db> {
    Map(DbRead, ds)
  }

  // ---------- what is lost ----------

  /** A JOIN of one member becomes a plain column. */
  function PlainBody(b: Body): Body {
    if b.Joined? && |b.members| == 1 then Plain(b.members[0]) else b
  }

  function PlainCol(c: Col): Col {
    Col(c.name, PlainBody(c.body))
  }

  function PlainTbl(t: Tbl): Tbl {
    Tbl(t.name, t.rows, Map(PlainCol, t.cols))
  }

  function PlainDb(d: Db): Db {
    Db(d.name, Map(PlainTbl, d.tbls))
  }

  function PlainDbs(ds: seq<Db>): seq<Db> {
    Map(PlainDb, ds)
  }

  predicate IsShortJoin(b: Body) {
    b.Joined? && |b.members| == 1
  }

  // ---------- members ----------

  lemma SpelledText(s: Sign, v: int)
    requires InRange(s, v)
    ensures Spelled(s, Text(v)) == v
  {
    if s.Signed? {
      ParseIntText(v);
    } else {
      ValueDecimal(v);
    }
  }

  /** A stored member. */
  predicate Keeps(name: Arg, m: Member, c: ColSpec) {
    c.kind == m.kind && c.grp == m.grp && c.base == BaseOf(m.kind, name)
  }

  lemma MemberIsRead(name: Arg, m: Member, c: ColSpec)
    requires Keeps(name, m, c) && KindOk(m.kind)
    ensures MemberRead(name)(c) == m
  {
    if m.kind.IntFixed? {
      SpelledText(m.kind.sign, m.kind.value);
    }
  }

  lemma {:induction false} MemberAt(s: Setters, name: Arg, ms: seq<Member>, i: nat)
    requires i < |ms|
    ensures MembersBy(s, name, ms)[i] == s.member(name, ms[i])
    decreases |ms|
  {
    if i < |ms| - 1 {
      MemberAt(s, name, ms[..|ms| - 1], i);
    }
  }

  lemma CellKeeps(name: Arg, b: Body, rows: nat, i: nat)
    requires i < Cells(b)
    ensures Keeps(name, if b.Plain? then b.member else b.members[i], BodyBy(Standard(), name, b, rows)[i])
  {
    if b.Joined? {
      MemberAt(Standard(), name, b.members, i);
    }
  }

  lemma BodyIsRead(name: Arg, b: Body, rows: nat)
    requires BodyOk(b, rows)
    ensures BodyRead(name, BodyBy(Standard(), name, b, rows)) == PlainBody(b)
  {
    var cells := BodyBy(Standard(), name, b, rows);
    forall i: nat | i < |cells| ensures MemberRead(name)(cells[i]) == if b.Plain? then b.member else b.members[i] {
      var m := if b.Plain? then b.member else b.members[i];
      assert MemberOk(m, rows);
      CellKeeps(name, b, rows, i);
      MemberIsRead(name, m, cells[i]);
    }
    if |cells| > 1 {
      assert Map(MemberRead(name), cells) == b.members;
    }
  }

  // ---------- tables and databases ----------

  lemma ColIsRead(c: Col, rows: nat)
    requires ColOk(c, rows)
    ensures ColRead(BodyBy(Standard(), c.name, c.body, rows)) == PlainCol(c)
  {
    StandardNames();
    BodyIsGroup(Standard(), c.name, c.body, rows);
    BodyIsRead(c.name, c.body, rows);
  }

  lemma TblIsRead(t: Tbl)
    requires TblOk(t)
    ensures TblRead(View(Standard(), t)) == PlainTbl(t)
  {
    ColumnsAreGroups(t);
    var groups := Groups(View(Standard(), t).cols);
    forall i | 0 <= i < |t.cols| ensures ColRead(groups[i]) == PlainCol(t.cols[i]) {
      assert ColOk(t.cols[i], t.rows);
      ColIsRead(t.cols[i], t.rows);
    }
    assert Map(ColRead, groups) == Map(PlainCol, t.cols);
  }

  lemma {:induction false} ViewAt(s: Setters, ts: seq<Tbl>, i: nat)
    requires i < |ts|
    ensures Views(s, ts)[i] == View(s, ts[i])
    decreases |ts|
  {
    if i < |ts| - 1 {
      ViewAt(s, ts[..|ts| - 1], i);
    }
  }

  lemma DbIsRead(d: Db)
    requires DbOk(d)
    ensures DbRead(ViewDb(Standard(), d)) == PlainDb(d)
  {
    var views := Views(Standard(), d.tbls);
    forall i: nat | i < |d.tbls| ensures TblRead(views[i]) == PlainTbl(d.tbls[i]) {
      ViewAt(Standard(), d.tbls, i);
      assert TblOk(d.tbls[i]);
      TblIsRead(d.tbls[i]);
    }
    assert Map(TblRead, views) == Map(PlainTbl, d.tbls);
  }

  lemma {:induction false} ViewDbAt(s: Setters, ds: seq<Db>, i: nat)
    requires i < |ds|
    ensures ViewDbs(s, ds)[i] == ViewDb(s, ds[i])
    decreases |ds|
  {
    if i < |ds| - 1 {
      ViewDbAt(s, ds[..|ds| - 1], i);
    }
  }

  /** Whatever is well formed is read back from what the setters store, but for JOINs of one member, which
      are read as plain columns. */
  lemma StoredIsRead(ds: seq<Db>)
    requires forall d <- ds :: DbOk(d)
    ensures DbsRead(ViewDbs(Standard(), ds)) == PlainDbs(ds)
  {
    var views := ViewDbs(Standard(), ds);
    forall i: nat | i < |ds| ensures DbRead(views[i]) == PlainDb(ds[i]) {
      ViewDbAt(Standard(), ds, i);
      DbIsRead(ds[i]);
    }
    assert Map(DbRead, views) == Map(PlainDb, ds);
  }

  predicate TblIsKept(t: Tbl) {
    forall c <- t.cols :: !IsShortJoin(c.body)
  }

  predicate DbIsKept(d: Db) {
    forall t <- d.tbls :: TblIsKept(t)
  }

  /** No JOIN has just one member. */
  predicate AreKept(ds: seq<Db>) {
    forall d <- ds :: DbIsKept(d)
  }

  lemma MapKeeps<T>(f: T -> T, xs: seq<T>)
    ensures Map(f, xs) == xs <==> forall x <- xs :: f(x) == x
  {
    if Map(f, xs) == xs {
      forall x <- xs ensures f(x) == x {
        var i :| 0 <= i < |xs| && xs[i] == x;
        assert Map(f, xs)[i] == f(x);
      }
    } else {
      var i :| 0 <= i < |xs| && Map(f, xs)[i] != xs[i];
      assert xs[i] in xs;
    }
  }

  lemma TblIsKeptIff(t: Tbl)
    ensures PlainTbl(t) == t <==> TblIsKept(t)
  {
    MapKeeps(PlainCol, t.cols);
  }

  lemma DbIsKeptIff(d: Db)
    ensures PlainDb(d) == d <==> DbIsKept(d)
  {
    MapKeeps(PlainTbl, d.tbls);
    forall t: Tbl ensures PlainTbl(t) == t <==> TblIsKept(t) {
      TblIsKeptIff(t);
    }
  }

  lemma AreKeptIff(ds: seq<Db>)
    ensures PlainDbs(ds) == ds <==> AreKept(ds)
  {
    MapKeeps(PlainDb, ds);
    forall d: Db ensures PlainDb(d) == d <==> DbIsKept(d) {
      DbIsKeptIff(d);
    }
  }

  /** Exactly the lists without JOINs of one member are read back as they were. */
  lemma StoredIsReadIff(ds: seq<Db>)
    requires forall d <- ds :: DbOk(d)
    ensures DbsRead(ViewDbs(Standard(), ds)) == ds <==> AreKept(ds)
  {
    StoredIsRead(ds);
    AreKeptIff(ds);
  }

  /** What is stored alike was asked for alike, up to JOINs of one member. */
  lemma StoredAlike(ds: seq<Db>, es: seq<Db>)
    requires (forall d <- ds :: DbOk(d)) && (forall d <- es :: DbOk(d)) && ViewDbs(Standard(), ds) == ViewDbs(Standard(), es)
    ensures PlainDbs(ds) == PlainDbs(es)
  {
    StoredIsRead(ds);
    StoredIsRead(es);
  }

  /** A JOIN of one member and the plain column are stored alike if and only if the member is a string, but
      neither a fixed one nor a default one in groups: nothing at all then tells them apart. */
  lemma ShortJoinIff(name: Arg, m: Member, rows: nat)
    requires MemberOk(m, rows)
    ensures BodyBy(Standard(), name, Joined([m]), rows) == BodyBy(Standard(), name, Plain(m), rows) <==>
            ColumnTypes.IsString(m.kind) && !m.kind.StrFixed? && !(m.kind.StrDefault? && m.grp.Some?)
  {
    var joined, plain := MemberSpec(name, m), PlainSpec(name, m, rows);
    assert [m][..0] == [];
    MemberAt(Standard(), name, [m], 0);
    assert BodyBy(Standard(), name, Joined([m]), rows) == [Named(joined, name, Total([m], rows, name))];
    JoinCells.TotalOfOne(name, m, rows);
    assert BodyBy(Standard(), name, Plain(m), rows) == [plain];
    ShortJoinSpec(name, m, rows);
  }

  lemma ShortJoinSpec(name: Arg, m: Member, rows: nat)
    requires MemberOk(m, rows)
    ensures var join := Join(JoinLength(m.kind, m.grp, rows, name), Varies(m.kind));
            Named(MemberSpec(name, m), name, join) == PlainSpec(name, m, rows) <==>
            ColumnTypes.IsString(m.kind) && !m.kind.StrFixed? && !(m.kind.StrDefault? && m.grp.Some?)
  {
  }

  /** Printing well-formed databases in any style, parsing them and reading what is stored gives them
      back. */
  lemma PrintedIsRead(st: Style, ds: seq<Db>)
    requires ds != [] && forall d <- ds :: DbOk(d)
    ensures DbsRead(ViewDbs(Standard(), Run(LexAll(CommandArgs(st, ds))).dbs)) == PlainDbs(ds)
  {
    RoundTrip(st, ds);
    StoredIsRead(ds);
  }
}
