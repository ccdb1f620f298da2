/** The resources the columns of a database share: what the setters ask for, what the build
    functions then use, and when the one covers the other. */
module Resources {
  import opened Octets
  import opened Specs
  import opened Random
  import opened Columns
  import opened Rendering
  import opened Counters
  import opened Structure

  /** At least as much. */
  predicate Covers(a: Shared, b: Shared) {
    b.upto <= a.upto && b.flags <= a.flags
  }

  /** What the build function of a stored column uses: the counter, and random numbers of the
      width its generator draws. */
  function Uses(c: ColSpec, rows: nat): Shared {
    match c.build
    case UniqueInt(_, grouped) => Shared(CountTo(c, grouped, rows), {})
    case UniqueStr(grouped) => Shared(CountTo(c, grouped, rows), {})
    case RandomInt(_, _, _) => Shared(0, if c.plan.Some? then {WidthFlag(c.plan.value.gen.draw)} else {})
    case Uuid(_) => Shared(0, {Rand32, UuidCtor})
    case Name(_, _) => Shared(0, {Rand32})
    case _ => Nothing
  }

  /** The stored column of a plain column or JOIN member. */
  function Stored(name: Arg, m: Member, rows: nat, inJoin: bool): ColSpec {
    if inJoin then MemberSpec(name, m) else PlainSpec(name, m, rows)
  }

  /** Grouped default strings of a JOIN are counted to the group count, but built to the row
      count. */
  predicate Underasked(m: Member, inJoin: bool) {
    inJoin && m.kind.StrDefault? && m.grp.Some?
  }

  /** A setter asks for what the build function it stores goes on to use, except that the counter
      of a grouped default string in a JOIN must happen to be asked up to the row count. */
  lemma AsksCoverUses(name: Arg, m: Member, rows: nat, inJoin: bool)
    ensures Covers(Asks(m.kind, m.grp, rows, inJoin), Uses(Stored(name, m, rows, inJoin), rows)) <==>
            (Underasked(m, inJoin) ==> rows <= m.grp.value.count)
  {
    if IsRandom(m.kind) {
      PlanShape(m.kind, ByGroup(m.grp, inJoin));
    }
  }

  /** The least signed minimum of 32 bits in groups falls through to the last branch of its setter. */
  predicate Overasked(m: Member, inJoin: bool) {
    !inJoin && m.grp.Some? && m.kind == IntFrom(Signed, -0x8000_0000)
  }

  /** A setter asks for just what the build function it stores goes on to use, no less and no more, unless
      it asks for both random number generators and one is used, or for a counter that is too short. */
  lemma AsksAreUses(name: Arg, m: Member, rows: nat, inJoin: bool)
    requires MemberOk(m, rows)
    ensures Asks(m.kind, m.grp, rows, inJoin) == Uses(Stored(name, m, rows, inJoin), rows) <==>
            !Overasked(m, inJoin) && (Underasked(m, inJoin) ==> m.grp.value.count == rows)
    ensures Overasked(m, inJoin) ==>
              && Asks(m.kind, m.grp, rows, inJoin) == Shared(0, {Rand32, Rand64})
              && Uses(Stored(name, m, rows, inJoin), rows) == Shared(0, {Rand32})
  {
    if IsRandom(m.kind) {
      RandomAsksAreUses(name, m, rows, inJoin);
    }
  }

  lemma RandomAsksAreUses(name: Arg, m: Member, rows: nat, inJoin: bool)
    requires IsRandom(m.kind) && MemberOk(m, rows)
    ensures var asked, used := Asks(m.kind, m.grp, rows, inJoin), Uses(Stored(name, m, rows, inJoin), rows);
            if Overasked(m, inJoin) then asked == Shared(0, {Rand32, Rand64}) && used == Shared(0, {Rand32}) else asked == used
  {
    PlanShape(m.kind, ByGroup(m.grp, inJoin));
    if FallsThrough(m.kind, m.grp, inJoin) {
      assert PlanOf(m.kind, true) == AssignFrom(m.kind.low);
    }
  }

  // ---------- a whole database ----------

  /** counter_upto and ctor_flags of a database once it is complete. */
  function DbShare(d: Db): Shared {
    Fold(TblShares(Standard()), d.tbls)
  }

  predicate InBody(b: Body, m: Member, inJoin: bool) {
    match b
    case Plain(only) => m == only && !inJoin
    case Joined(ms) => m in ms && inJoin
  }

  predicate InCols(cs: seq<Col>, m: Member, inJoin: bool) {
    exists c <- cs :: InBody(c.body, m, inJoin)
  }

  predicate InTbls(ts: seq<Tbl>, m: Member, rows: nat, inJoin: bool) {
    exists t <- ts :: t.rows == rows && InCols(t.cols, m, inJoin)
  }

  /** `a` is the least upper bound: it covers what every member asks for, and everything in it
      some member asks for. */
  ghost predicate IsLeast(a: Shared, asked: Shared -> bool) {
    && (forall s: Shared {:trigger asked(s)} :: asked(s) ==> Covers(a, s))
    && (a.upto == 0 || exists s: Shared {:trigger asked(s)} :: asked(s) && s.upto == a.upto)
    && forall f <- a.flags :: exists s: Shared {:trigger asked(s)} :: asked(s) && f in s.flags
  }

  ghost function Either(p: Shared -> bool, q: Shared -> bool): Shared -> bool {
    (s: Shared) => p(s) || q(s)
  }

  lemma MergeIsLeast(a: Shared, p: Shared -> bool, b: Shared, q: Shared -> bool)
    requires IsLeast(a, p) && IsLeast(b, q)
    ensures IsLeast(Merge(a, b), Either(p, q))
  {
    var either := Either(p, q);
    forall s: Shared | either(s) ensures Covers(Merge(a, b), s) {
      assert p(s) || q(s);
    }
    if a.upto >= b.upto && a.upto > 0 {
      var s: Shared :| p(s) && s.upto == a.upto;
      assert either(s);
    } else if b.upto > 0 {
      var s: Shared :| q(s) && s.upto == b.upto;
      assert either(s);
    }
    forall f <- Merge(a, b).flags ensures exists s: Shared {:trigger either(s)} :: either(s) && f in s.flags {
      if f in a.flags {
        var s: Shared :| p(s) && f in s.flags;
        assert either(s);
      } else {
        var s: Shared :| q(s) && f in s.flags;
        assert either(s);
      }
    }
  }

  ghost predicate Alike(p: Shared -> bool, q: Shared -> bool) {
    forall s: Shared {:trigger p(s)} {:trigger q(s)} :: p(s) <==> q(s)
  }

  lemma SameLeast(a: Shared, p: Shared -> bool, q: Shared -> bool)
    requires IsLeast(a, p) && Alike(p, q)
    ensures IsLeast(a, q)
  {
    if a.upto > 0 {
      var s: Shared :| p(s) && s.upto == a.upto;
      assert q(s);
    }
    forall f <- a.flags ensures exists s: Shared {:trigger q(s)} :: q(s) && f in s.flags {
      var s: Shared :| p(s) && f in s.flags;
      assert q(s);
    }
  }

  ghost function AskedBy<T(!new)>(asked: T -> Shared -> bool, xs: seq<T>): Shared -> bool {
    (s: Shared) => exists x <- xs :: asked(x)(s)
  }

  lemma {:induction false} FoldIsLeast<T(!new)>(share: T -> Shared, asked: T -> Shared -> bool, xs: seq<T>)
    requires forall x <- xs :: IsLeast(share(x), asked(x))
    ensures IsLeast(Fold(share, xs), AskedBy(asked, xs))
    decreases |xs|
  {
    if xs != [] {
      var n := |xs| - 1;
      FoldIsLeast(share, asked, xs[..n]);
      var p, q := AskedBy(asked, xs[..n]), asked(xs[n]);
      MergeIsLeast(Fold(share, xs[..n]), p, share(xs[n]), q);
      assert xs == xs[..n] + [xs[n]];
      SameLeast(Fold(share, xs), Either(p, q), AskedBy(asked, xs));
    }
  }

  /** What one element asks for. */
  ghost function Just<T(!new)>(ask: T -> Shared): T -> Shared -> bool {
    (x: T) => (s: Shared) => s == ask(x)
  }

  lemma JustIsLeast<T(!new)>(ask: T -> Shared, x: T)
    ensures IsLeast(ask(x), Just(ask)(x))
  {
    assert Just(ask)(x)(ask(x));
  }

  ghost function AskedByBody(b: Body, rows: nat): Shared -> bool {
    match b
    case Plain(m) => Just((n: Member) => Asks(n.kind, n.grp, rows, false))(m)
    case Joined(ms) => AskedBy(Just(JoinAsks(Standard(), rows)), ms)
  }

  ghost function ColAsked(rows: nat): Col -> Shared -> bool {
    (c: Col) => AskedByBody(c.body, rows)
  }

  ghost function TblAsked(): Tbl -> Shared -> bool {
    (t: Tbl) => AskedBy(ColAsked(t.rows), t.cols)
  }

  ghost function AskedByTbls(ts: seq<Tbl>): Shared -> bool {
    AskedBy(TblAsked(), ts)
  }

  lemma BodyIsLeast(b: Body, rows: nat)
    ensures IsLeast(BodyShare(Standard(), b, rows), AskedByBody(b, rows))
  {
    match b
    case Plain(m) => JustIsLeast((n: Member) => Asks(n.kind, n.grp, rows, false), m);
    case Joined(ms) =>
      forall m <- ms ensures IsLeast(JoinAsks(Standard(), rows)(m), Just(JoinAsks(Standard(), rows))(m)) {
        JustIsLeast(JoinAsks(Standard(), rows), m);
      }
      FoldIsLeast(JoinAsks(Standard(), rows), Just(JoinAsks(Standard(), rows)), ms);
  }

  lemma TblIsLeast(t: Tbl)
    ensures IsLeast(TblShares(Standard())(t), TblAsked()(t))
  {
    forall c <- t.cols ensures IsLeast(ColShares(Standard(), t.rows)(c), ColAsked(t.rows)(c)) {
      BodyIsLeast(c.body, t.rows);
    }
    FoldIsLeast(ColShares(Standard(), t.rows), ColAsked(t.rows), t.cols);
  }

  /** counter_upto is the largest count any member of the database asks for, and ctor_flags are
      the flags its members ask for, no more and no fewer. */
  lemma DbShareIsLeast(d: Db)
    ensures IsLeast(DbShare(d), AskedByTbls(d.tbls))
  {
    forall t <- d.tbls ensures IsLeast(TblShares(Standard())(t), TblAsked()(t)) {
      TblIsLeast(t);
    }
    FoldIsLeast(TblShares(Standard()), TblAsked(), d.tbls);
  }

  // ---------- a whole run ----------

  /** counter_upto and ctor_flags of the run, from which its one counter and its random number
      generators are constructed. */
  function RunShare(ds: seq<Db>): Shared {
    CountDbs(Standard(), ds).shared
  }

  predicate InRun(ds: seq<Db>, m: Member, rows: nat, inJoin: bool) {
    exists d <- ds :: InTbls(d.tbls, m, rows, inJoin)
  }

  ghost function DbAsked(): Db -> Shared -> bool {
    (d: Db) => AskedByTbls(d.tbls)
  }

  /** What is committed with a database is its share, and over the run all shares together. */
  lemma {:induction false} SharesAreCommitted(ds: seq<Db>)
    ensures RunShare(ds) == Fold((d: Db) => DbShare(d), ds)
    decreases |ds|
  {
    if ds != [] {
      SharesAreCommitted(ds[..|ds| - 1]);
      TblsAreCounted(Standard(), ds[|ds| - 1].tbls);
    }
  }

  /** The run is given the largest count and exactly the flags that some member of some database
      asks for. */
  lemma RunShareIsLeast(ds: seq<Db>)
    ensures IsLeast(RunShare(ds), AskedBy(DbAsked(), ds))
  {
    var share := (d: Db) => DbShare(d);
    forall d <- ds ensures IsLeast(share(d), DbAsked()(d)) {
      DbShareIsLeast(d);
    }
    FoldIsLeast(share, DbAsked(), ds);
    SharesAreCommitted(ds);
  }

  /** How far the counter is asked to run. */
  function Counted(m: Member, rows: nat): nat {
    if m.kind.IntDefault? || m.kind.IntUnique? || m.kind.StrDefault? || m.kind.StrUnique? then GroupCount(m.grp, rows) else 0
  }

  lemma AsksCounted(m: Member, rows: nat, inJoin: bool)
    ensures Asks(m.kind, m.grp, rows, inJoin).upto == Counted(m, rows)
  {
  }

  lemma BodyAsks(b: Body, m: Member, rows: nat, inJoin: bool)
    requires InBody(b, m, inJoin)
    ensures AskedByBody(b, rows)(Asks(m.kind, m.grp, rows, inJoin))
  {
    if inJoin {
      assert Just(JoinAsks(Standard(), rows))(m)(Asks(m.kind, m.grp, rows, inJoin));
    }
  }

  lemma DbAsks(d: Db, m: Member, rows: nat, inJoin: bool)
    requires InTbls(d.tbls, m, rows, inJoin)
    ensures DbAsked()(d)(Asks(m.kind, m.grp, rows, inJoin))
  {
    var t :| t in d.tbls && t.rows == rows && InCols(t.cols, m, inJoin);
    var c :| c in t.cols && InBody(c.body, m, inJoin);
    BodyAsks(c.body, m, rows, inJoin);
    assert ColAsked(rows)(c)(Asks(m.kind, m.grp, rows, inJoin));
    assert TblAsked()(t)(Asks(m.kind, m.grp, rows, inJoin));
  }

  lemma MemberIsCovered(ds: seq<Db>, m: Member, rows: nat, inJoin: bool)
    requires InRun(ds, m, rows, inJoin)
    ensures Covers(RunShare(ds), Asks(m.kind, m.grp, rows, inJoin))
  {
    RunShareIsLeast(ds);
    var s := Asks(m.kind, m.grp, rows, inJoin);
    var d :| d in ds && InTbls(d.tbls, m, rows, inJoin);
    DbAsks(d, m, rows, inJoin);
    assert AskedBy(DbAsked(), ds)(s);
  }

  lemma AskedInBody(b: Body, rows: nat, s: Shared) returns (m: Member, inJoin: bool)
    requires AskedByBody(b, rows)(s)
    ensures InBody(b, m, inJoin) && s == Asks(m.kind, m.grp, rows, inJoin)
  {
    match b
    case Plain(only) =>
      m, inJoin := only, false;
    case Joined(ms) =>
      m :| m in ms && Just(JoinAsks(Standard(), rows))(m)(s);
      inJoin := true;
  }

  /** Whatever is asked for, some member asks for. */
  lemma AskedByMember(ds: seq<Db>, s: Shared) returns (m: Member, rows: nat, inJoin: bool)
    requires AskedBy(DbAsked(), ds)(s)
    ensures InRun(ds, m, rows, inJoin) && s == Asks(m.kind, m.grp, rows, inJoin)
  {
    var d :| d in ds && DbAsked()(d)(s);
    var t :| t in d.tbls && TblAsked()(t)(s);
    var c :| c in t.cols && ColAsked(t.rows)(c)(s);
    rows := t.rows;
    m, inJoin := AskedInBody(c.body, rows, s);
    assert InCols(t.cols, m, inJoin);
    assert InTbls(d.tbls, m, rows, inJoin);
  }

  /** Some member of the run asks for at least so large a count. */
  ghost predicate IsCounted(ds: seq<Db>, n: nat) {
    exists m: Member, rows: nat, inJoin: bool :: InRun(ds, m, rows, inJoin) && n <= Counted(m, rows)
  }

  lemma CountedIff(ds: seq<Db>, n: nat)
    requires n > 0
    ensures n <= RunShare(ds).upto <==> IsCounted(ds, n)
  {
    if n <= RunShare(ds).upto {
      RunShareIsLeast(ds);
      var s: Shared :| AskedBy(DbAsked(), ds)(s) && s.upto == RunShare(ds).upto;
      var m, rows, inJoin := AskedByMember(ds, s);
      AsksCounted(m, rows, inJoin);
    }
    if IsCounted(ds, n) {
      var m: Member, rows: nat, inJoin: bool :| InRun(ds, m, rows, inJoin) && n <= Counted(m, rows);
      AsksCounted(m, rows, inJoin);
      MemberIsCovered(ds, m, rows, inJoin);
    }
  }

  /** A constructor for these flags is in GEN_CTOR_MAP, or none is needed. */
  predicate HasConstructor(flags: set<Ctor>) {
    UuidCtor in flags ==> Rand32 in flags
  }

  lemma LeastHasConstructor(a: Shared, asked: Shared -> bool)
    requires IsLeast(a, asked) && forall s: Shared {:trigger asked(s)} :: asked(s) ==> HasConstructor(s.flags)
    ensures HasConstructor(a.flags)
  {
    if UuidCtor in a.flags {
      var s: Shared :| asked(s) && UuidCtor in s.flags;
      assert Covers(a, s);
    }
  }

  lemma AskedHasConstructor(ds: seq<Db>, s: Shared)
    requires AskedBy(DbAsked(), ds)(s)
    ensures HasConstructor(s.flags)
  {
    var m, rows, inJoin := AskedByMember(ds, s);
  }

  /** The flags of a run never select an empty entry of GEN_CTOR_MAP: UUIDs bring 32-bit random
      numbers with them. */
  lemma RunHasConstructor(ds: seq<Db>)
    ensures HasConstructor(RunShare(ds).flags)
  {
    RunShareIsLeast(ds);
    var asked := AskedBy(DbAsked(), ds);
    forall s: Shared {:trigger asked(s)} | asked(s) ensures HasConstructor(s.flags) {
      AskedHasConstructor(ds, s);
    }
    LeastHasConstructor(RunShare(ds), asked);
  }

  /** No build function of any accepted database lacks a resource. */
  ghost predicate Prepared(ds: seq<Db>) {
    forall name: Arg, m: Member, rows: nat, inJoin: bool {:trigger Stored(name, m, rows, inJoin)} ::
      InRun(ds, m, rows, inJoin) ==> Covers(RunShare(ds), Uses(Stored(name, m, rows, inJoin), rows))
  }

  /** Wherever a JOIN has a grouped default string, some member of the run, of whatever database,
      asks for a count that reaches the row count of the table. */
  ghost predicate StringsAreCounted(ds: seq<Db>) {
    forall m: Member, rows: nat {:trigger InRun(ds, m, rows, true)} ::
      InRun(ds, m, rows, true) && Underasked(m, true) ==> IsCounted(ds, rows)
  }

  lemma UnderaskedUses(name: Arg, m: Member, rows: nat)
    requires Underasked(m, true)
    ensures Uses(Stored(name, m, rows, true), rows) == Shared(rows, {})
  {
  }

  /** Every build function of the run finds what it uses if and only if `StringsAreCounted`. */
  lemma PreparedIff(ds: seq<Db>)
    ensures Prepared(ds) <==> StringsAreCounted(ds)
  {
    if Prepared(ds) {
      forall m: Member, rows: nat | InRun(ds, m, rows, true) && Underasked(m, true) ensures IsCounted(ds, rows) {
        assert Covers(RunShare(ds), Uses(Stored([], m, rows, true), rows));
        UnderaskedUses([], m, rows);
        if rows > 0 {
          CountedIff(ds, rows);
        } else {
          assert 0 <= Counted(m, rows);
        }
      }
    }
    if StringsAreCounted(ds) {
      forall name: Arg, m: Member, rows: nat, inJoin: bool | InRun(ds, m, rows, inJoin)
        ensures Covers(RunShare(ds), Uses(Stored(name, m, rows, inJoin), rows))
      {
        MemberIsCovered(ds, m, rows, inJoin);
        AsksCoverUses(name, m, rows, inJoin);
        if Underasked(m, inJoin) {
          UnderaskedUses(name, m, rows);
          if rows > 0 {
            CountedIff(ds, rows);
          }
        }
      }
    }
  }

  // ---------- one database that depends on another ----------

  function OneColumn(name: Arg, rows: nat, b: Body): Db {
    Db(name, [Tbl(name, rows, [Col(name, b)])])
  }

  lemma OneColumnHas(name: Arg, rows: nat, b: Body, m: Member, r: nat, inJoin: bool)
    ensures InTbls(OneColumn(name, rows, b).tbls, m, r, inJoin) <==> r == rows && InBody(b, m, inJoin)
  {
    var c := Col(name, b);
    var t := Tbl(name, rows, [c]);
    assert OneColumn(name, rows, b).tbls == [t] && t.cols == [c];
    if r == rows && InBody(b, m, inJoin) {
      assert c in t.cols && InCols(t.cols, m, inJoin);
      assert t in [t];
    }
  }

  /** `-d D -t T 10 -c C -s -j -s -g 1` counts to 1 and then builds 10 strings, unless another
      database of the run, here `-d D -t T 10 -c C -i`, has the counter run up to 10. */
  lemma UnpreparedWitness(name: Arg)
    ensures var a := OneColumn(name, 10, Joined([Member(StrDefault, Some(Grp(1, Even)))]));
            var b := OneColumn(name, 10, Plain(Member(IntDefault(Signed), None)));
            !Prepared([a]) && Prepared([a, b])
  {
    var m, n := Member(StrDefault, Some(Grp(1, Even))), Member(IntDefault(Signed), None);
    var a, b := OneColumn(name, 10, Joined([m])), OneColumn(name, 10, Plain(n));
    forall x: Member, rows: nat, inJoin: bool ensures InTbls(a.tbls, x, rows, inJoin) <==> rows == 10 && x == m && inJoin {
      OneColumnHas(name, 10, Joined([m]), x, rows, inJoin);
    }
    OneColumnHas(name, 10, Plain(n), n, 10, false);
    assert a in [a] && InRun([a], m, 10, true) && !IsCounted([a], 10);
    assert b in [a, b] && InRun([a, b], n, 10, false) && IsCounted([a, b], 10);
    forall x: Member, rows: nat | InRun([a, b], x, rows, true) ensures rows == 10 {
      OneColumnHas(name, 10, Plain(n), x, rows, true);
    }
    PreparedIff([a]);
    PreparedIff([a, b]);
  }
}
