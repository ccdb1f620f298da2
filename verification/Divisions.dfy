/** The command lines on which a setter divides by zero while it computes a threshold: what the code
    does from there on is undefined. */
module Divisions {
  import opened Octets
  import opened Numbers
  import opened Specs
  import opened Tokens
  import opened Grammar
  import opened Printer
  import opened Random
  import opened Columns
  import opened Heap
  import opened Machine

  // ---------- what the setters stored ----------

  predicate ColDivided(c: ColSpec) {
    c.plan.Some? && ZeroSpan(c.plan.value.gen)
  }

  predicate ColsDivided(cs: seq<ColSpec>) {
    exists c <- cs :: ColDivided(c)
  }

  predicate TblsDivided(ts: seq<TblView>) {
    exists t <- ts :: ColsDivided(t.cols)
  }

  /** Some setter has divided by zero. */
  predicate Divided(ds: seq<DbView>) {
    exists d <- ds :: TblsDivided(d.tbls)
  }

  // ---------- what was specified ----------

  predicate MemberDivides(m: Member, inJoin: bool) {
    Divides(m.kind, ByGroup(m.grp, inJoin))
  }

  predicate MembersDivide(ms: seq<Member>) {
    exists m <- ms :: MemberDivides(m, true)
  }

  predicate BodyDivides(b: Body) {
    match b
    case Plain(m) => MemberDivides(m, false)
    case Joined(ms) => MembersDivide(ms)
  }

  predicate ColsDivide(cs: seq<Col>) {
    exists c <- cs :: BodyDivides(c.body)
  }

  predicate TblsDivide(ts: seq<Tbl>) {
    exists t <- ts :: ColsDivide(t.cols)
  }

  /** Some column or JOIN member of these databases has a kind that divides. */
  predicate RunDivides(ds: seq<Db>) {
    exists d <- ds :: TblsDivide(d.tbls)
  }

  // ---------- one is the other ----------

  ghost predicate Divide(s: Setters) {
    && (forall name: Arg, m: Member, rows: nat {:trigger s.plain(name, m, rows)} ::
          MemberOk(m, rows) ==> (ColDivided(s.plain(name, m, rows)) <==> MemberDivides(m, false)))
    && (forall name: Arg, m: Member, rows: nat {:trigger s.member(name, m), MemberOk(m, rows)} ::
          MemberOk(m, rows) ==> (ColDivided(s.member(name, m)) <==> MemberDivides(m, true)))
  }

  lemma SetterDividesIff(name: Arg, m: Member, rows: nat)
    requires MemberOk(m, rows)
    ensures ColDivided(PlainSpec(name, m, rows)) <==> MemberDivides(m, false)
    ensures ColDivided(MemberSpec(name, m)) <==> MemberDivides(m, true)
  {
    if IsRandom(m.kind) {
      ZeroSpanIff(m.kind, ByGroup(m.grp, false));
      ZeroSpanIff(m.kind, ByGroup(m.grp, true));
    }
  }

  lemma StandardDivide()
    ensures Divide(Standard())
  {
    var s := Standard();
    forall name: Arg, m: Member, rows: nat {:trigger s.plain(name, m, rows)} | MemberOk(m, rows)
      ensures ColDivided(s.plain(name, m, rows)) <==> MemberDivides(m, false)
    {
      SetterDividesIff(name, m, rows);
    }
    forall name: Arg, m: Member, rows: nat {:trigger s.member(name, m), MemberOk(m, rows)} | MemberOk(m, rows)
      ensures ColDivided(s.member(name, m)) <==> MemberDivides(m, true)
    {
      SetterDividesIff(name, m, rows);
    }
  }

  lemma ColsDividedJoin(cs: seq<ColSpec>, ds: seq<ColSpec>)
    ensures ColsDivided(cs + ds) <==> ColsDivided(cs) || ColsDivided(ds)
  {
    if ColsDivided(cs) {
      var c :| c in cs && ColDivided(c);
      assert c in cs + ds;
    } else if ColsDivided(ds) {
      var c :| c in ds && ColDivided(c);
      assert c in cs + ds;
    }
  }

  lemma OneDivided(c: ColSpec)
    ensures ColsDivided([c]) <==> ColDivided(c)
  {
    assert c in [c];
  }

  lemma {:induction false} MembersDividedIff(s: Setters, name: Arg, ms: seq<Member>, rows: nat)
    requires Divide(s) && forall m <- ms :: MemberOk(m, rows)
    ensures ColsDivided(MembersBy(s, name, ms)) <==> MembersDivide(ms)
    decreases |ms|
  {
    if ms != [] {
      var init, last := ms[..|ms| - 1], ms[|ms| - 1];
      assert ms == init + [last] && last in ms;
      MembersDividedIff(s, name, init, rows);
      ColsDividedJoin(MembersBy(s, name, init), [s.member(name, last)]);
      OneDivided(s.member(name, last));
    }
  }

  /** Naming the first ColSpec of a JOIN leaves its plan alone. */
  lemma NamedDivided(cs: seq<ColSpec>, name: Arg, join: Join)
    requires cs != []
    ensures ColsDivided(cs[0 := Named(cs[0], name, join)]) <==> ColsDivided(cs)
  {
    var named := Named(cs[0], name, join);
    assert cs == [cs[0]] + cs[1..] && cs[0 := named] == [named] + cs[1..];
    ColsDividedJoin([cs[0]], cs[1..]);
    ColsDividedJoin([named], cs[1..]);
    OneDivided(cs[0]);
    OneDivided(named);
  }

  lemma BodyDividedIff(s: Setters, name: Arg, b: Body, rows: nat)
    requires Divide(s) && BodyOk(b, rows)
    ensures ColsDivided(BodyBy(s, name, b, rows)) <==> BodyDivides(b)
  {
    match b
    case Plain(m) => OneDivided(s.plain(name, m, rows));
    case Joined(ms) =>
      MembersDividedIff(s, name, ms, rows);
      NamedDivided(MembersBy(s, name, ms), name, TotalBy(s, name, rows, ms));
  }

  lemma {:induction false} ColsDividedIff(s: Setters, cs: seq<Col>, rows: nat)
    requires Divide(s) && forall c <- cs :: ColOk(c, rows)
    ensures ColsDivided(Flatten(CellsBy(s, rows), cs)) <==> ColsDivide(cs)
    decreases |cs|
  {
    if cs != [] {
      var init, last := cs[..|cs| - 1], cs[|cs| - 1];
      assert cs == init + [last] && last in cs;
      ColsDividedIff(s, init, rows);
      BodyDividedIff(s, last.name, last.body, rows);
      ColsDividedJoin(Flatten(CellsBy(s, rows), init), BodyBy(s, last.name, last.body, rows));
    }
  }

  lemma {:induction false} TblsDividedIff(s: Setters, ts: seq<Tbl>)
    requires Divide(s) && forall t <- ts :: TblOk(t)
    ensures TblsDivided(Views(s, ts)) <==> TblsDivide(ts)
    decreases |ts|
  {
    if ts != [] {
      var init, last := ts[..|ts| - 1], ts[|ts| - 1];
      assert ts == init + [last] && last in ts;
      TblsDividedIff(s, init);
      ColsDividedIff(s, last.cols, last.rows);
    }
  }

  lemma {:induction false} DbsDividedIff(s: Setters, ds: seq<Db>)
    requires Divide(s) && forall d <- ds :: DbOk(d)
    ensures Divided(ViewDbs(s, ds)) <==> RunDivides(ds)
    decreases |ds|
  {
    if ds != [] {
      var init, last := ds[..|ds| - 1], ds[|ds| - 1];
      assert ds == init + [last] && last in ds;
      DbsDividedIff(s, init);
      TblsDividedIff(s, last.tbls);
    }
  }

  /** A setter of the accepted databases has divided by zero if and only if some column or JOIN member
      of theirs has a kind that divides. */
  lemma DividedIff(ds: seq<Db>)
    requires forall d <- ds :: DbOk(d)
    ensures Divided(ViewDbs(Standard(), ds)) <==> RunDivides(ds)
  {
    StandardDivide();
    DbsDividedIff(Standard(), ds);
  }

  // ---------- two command lines ----------

  function OnePlain(name: Arg, m: Member): Db {
    Db(name, [Tbl(name, 5, [Col(name, Plain(m))])])
  }

  lemma OnePlainDivides(name: Arg, m: Member)
    requires IsName(name) && MemberOk(m, 5) && MemberDivides(m, false)
    ensures DbOk(OnePlain(name, m)) && RunDivides([OnePlain(name, m)])
  {
    var c := Col(name, Plain(m));
    var t := Tbl(name, 5, [c]);
    var d := Db(name, [t]);
    assert c in t.cols && t in d.tbls && d in [d];
    assert ColsDivide(t.cols) && TblsDivide(d.tbls);
  }

  /** `-d N -t N 5 -c N -u -r -r 0 8589934591`, in whatever style, would be accepted. */
  lemma DividingRangeWitness(st: Style, name: Arg)
    requires IsName(name)
    ensures var ds := [OnePlain(name, Member(IntRange(Unsigned, 0, 2 * TWO32 - 1), None))];
            Run(LexAll(CommandArgs(st, ds))) == Outcome(ds, true) && RunDivides(ds)
  {
    var m := Member(IntRange(Unsigned, 0, 2 * TWO32 - 1), None);
    OnePlainDivides(name, m);
    RoundTrip(st, [OnePlain(name, m)]);
  }

  /** `-d N -t N 5 -c N -i -r -f -2147483648 -g 1` likewise. */
  lemma DividingMinimumWitness(st: Style, name: Arg)
    requires IsName(name)
    ensures var ds := [OnePlain(name, Member(IntFrom(Signed, INT32_MIN), Some(Grp(1, Even))))];
            Run(LexAll(CommandArgs(st, ds))) == Outcome(ds, true) && RunDivides(ds)
  {
    var m := Member(IntFrom(Signed, INT32_MIN), Some(Grp(1, Even)));
    OnePlainDivides(name, m);
    RoundTrip(st, [OnePlain(name, m)]);
  }
}
