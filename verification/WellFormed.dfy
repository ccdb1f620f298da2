/** What a generate run guarantees about the databases it accepts, whether or not the whole command
    line is accepted: they are well-formed, and each is spelled by a stretch of arguments of its
    own. */
module WellFormed {
  import opened Octets
  import opened Specs
  import opened Tokens
  import opened Parsing
  import opened Members
  import opened BodySpelling
  import opened Grammar
  import opened Spelling
  import F = Flags

  // ---------- well-formedness ----------

  ghost predicate Yields<T>(item: Parser<T>, good: T -> bool) {
    forall i: nat {:trigger item(i)} :: item(i).Ok? ==> good(item(i).value)
  }

  lemma {:induction false} ManyYields<T>(item: Parser<T>, starts: nat -> bool, good: T -> bool, n: nat, done: seq<T>, j: nat)
    requires Advances(item, n) && Yields(item, good) && j <= n
    requires forall x <- done :: good(x)
    ensures var r := Many(item, starts, n, done, j); r.Ok? ==> forall x <- r.value :: good(x)
    decreases n - j
  {
    if j < n && starts(j) && item(j).Ok? {
      ManyYields(item, starts, good, n, done + [item(j).value], item(j).at);
    }
  }

  lemma KindIsOk(args: seq<Arg>, i: nat, k: Kind)
    requires KindSpelled(LexAll(args), i, k)
    ensures KindOk(k)
  {
    if k.IntFixed? {
      NumbersInRange(args[i + 2]);
    } else if k.IntFrom? || k.IntUpto? {
      NumbersInRange(args[i + 3]);
    } else if k.IntRange? {
      NumbersInRange(args[i + 3]);
      NumbersInRange(args[i + 4]);
    }
  }

  /** No GRP_SPEC on fixed data, and never more groups than rows. */
  lemma MemberIsOk(args: seq<Arg>, rows: nat, inJoin: bool, i: nat, j: nat, m: Member)
    ensures MemberSpelled(LexAll(args), rows, inJoin, i, j, m) ==> MemberOk(m, rows)
  {
    if MemberSpelled(LexAll(args), rows, inJoin, i, j, m) && KindSpelled(LexAll(args), i, m.kind) {
      KindIsOk(args, i, m.kind);
    }
  }

  ghost function OkBody(rows: nat): Body -> bool {
    (b: Body) => BodyOk(b, rows)
  }

  lemma JoinIsOk(args: seq<Arg>, rows: nat, i: nat)
    requires i < |args|
    ensures var r := JoinAt(LexAll(args), rows, i); r.Ok? ==> MemberOk(r.value, rows)
  {
    var argv := LexAll(args);
    var r := JoinAt(argv, rows, i);
    if r.Ok? {
      MemberSound(argv, rows, true, i);
      MemberIsOk(args, rows, true, i, r.at, r.value);
    }
  }

  lemma JoinsYield(args: seq<Arg>, rows: nat)
    ensures Yields(JoinParser(LexAll(args), rows), OkMember(rows))
  {
    forall i: nat | JoinParser(LexAll(args), rows)(i).Ok? ensures MemberOk(JoinParser(LexAll(args), rows)(i).value, rows) {
      JoinIsOk(args, rows, i);
    }
  }

  lemma PlusItemsYield(argv: Argv, join: Parser<Member>, good: Member -> bool)
    requires Advances(join, |argv|) && Yields(join, good)
    ensures Yields(PlusItems(argv, join), good)
  {
  }

  lemma JoinItemsYield(args: seq<Arg>, rows: nat)
    ensures Yields(JoinItems(LexAll(args), rows), OkMember(rows))
  {
    JoinsYield(args, rows);
    PlusItemsYield(LexAll(args), JoinParser(LexAll(args), rows), OkMember(rows));
  }

  lemma BodyIsOk(args: seq<Arg>, rows: nat, i: nat)
    requires i < |args| && BodyAt(LexAll(args), rows, i).Ok?
    ensures BodyOk(BodyAt(LexAll(args), rows, i).value, rows)
  {
    var argv := LexAll(args);
    if F.Is(argv[i].word, F.S, F.String) && i + 1 < |argv| && F.Is(argv[i + 1].word, F.J, F.Join) {
      JoinIsOk(args, rows, i + 2);
      var Ok(m, at) := JoinAt(argv, rows, i + 2);
      JoinItemsYield(args, rows);
      ManyYields(JoinItems(argv, rows), Pluses(argv), OkMember(rows), |argv|, [m], at);
      assert BodyAt(argv, rows, i).value == Joined(JoinsAt(argv, JoinParser(argv, rows), [m], at).value);
      assert forall x <- JoinsAt(argv, JoinParser(argv, rows), [m], at).value :: OkMember(rows)(x);
      ManyKeepsPrefix(JoinItems(argv, rows), Pluses(argv), |argv|, [m], at);
    } else {
      MemberSound(argv, rows, false, i);
      MemberIsOk(args, rows, false, i, PlainAt(argv, rows, i).at, PlainAt(argv, rows, i).value);
    }
  }

  lemma {:induction false} ManyKeepsPrefix<T>(item: Parser<T>, starts: nat -> bool, n: nat, done: seq<T>, j: nat)
    requires Advances(item, n) && j <= n
    ensures var r := Many(item, starts, n, done, j); r.Ok? ==> done <= r.value
    decreases n - j
  {
    if j < n && starts(j) && item(j).Ok? {
      ManyKeepsPrefix(item, starts, n, done + [item(j).value], item(j).at);
    }
  }

  lemma BodiesYield(args: seq<Arg>, rows: nat)
    ensures Yields(Bodies(LexAll(args))(rows), OkBody(rows))
  {
    var body := Bodies(LexAll(args))(rows);
    forall i: nat | body(i).Ok? ensures BodyOk(body(i).value, rows) {
      BodyIsOk(args, rows, i);
    }
  }

  lemma ColItemsYield(args: seq<Arg>, body: Parser<Body>, rows: nat)
    requires Advances(body, |args|) && Yields(body, OkBody(rows))
    ensures Yields(ColItems(LexAll(args), body), (c: Col) => ColOk(c, rows))
  {
  }

  lemma TblItemsYield(args: seq<Arg>, body: BodyParser)
    requires BodiesAdvance(body, |args|)
    requires forall rows: nat {:trigger body(rows)} :: Yields(body(rows), OkBody(rows))
    ensures Yields(TblItems(LexAll(args), body), (t: Tbl) => TblOk(t))
  {
    var argv := LexAll(args);
    var item := TblItems(argv, body);
    forall i: nat | item(i).Ok? ensures TblOk(item(i).value) {
      var Ok(head, first) := TblHead(argv, i);
      var one := body(head.1);
      ColItemsYield(args, one, head.1);
      assert ColItems(argv, one)(first) == ColAt(argv, one, first);
      var Ok(c, at) := ColAt(argv, one, first);
      ManyYields(ColItems(argv, one), Columns(argv), (c: Col) => ColOk(c, head.1), |argv|, [c], at);
      ManyKeepsPrefix(ColItems(argv, one), Columns(argv), |argv|, [c], at);
    }
  }

  lemma DbItemsYield(args: seq<Arg>, body: BodyParser)
    requires BodiesAdvance(body, |args|) && Yields(TblItems(LexAll(args), body), (t: Tbl) => TblOk(t))
    ensures Yields(DbItems(LexAll(args), body), (d: Db) => DbOk(d))
  {
    var argv := LexAll(args);
    var tbl, item := TblItems(argv, body), DbItems(argv, body);
    forall i: nat | item(i).Ok? ensures DbOk(item(i).value) {
      DbIsOk(args, tbl, i);
    }
  }

  lemma DbIsOk(args: seq<Arg>, tbl: Parser<Tbl>, i: nat)
    requires Advances(tbl, |args|) && Yields(tbl, (t: Tbl) => TblOk(t))
    requires i + DB_SPEC_LENGTH_MIN <= |args| && DbAt(LexAll(args), tbl, i).Ok?
    ensures DbOk(DbAt(LexAll(args), tbl, i).value)
  {
    var argv := LexAll(args);
    var Ok(t, at) := tbl(i + 2);
    ManyYields(tbl, Tables(argv), (t: Tbl) => TblOk(t), |argv|, [t], at);
    ManyKeepsPrefix(tbl, Tables(argv), |argv|, [t], at);
  }

  lemma {:induction false} DbsYield(argv: Argv, db: Parser<Db>, good: Db -> bool, done: seq<Db>, clean: bool, i: nat)
    requires Advances(db, |argv|) && Yields(db, good)
    requires forall d <- done :: good(d)
    ensures forall d <- DbsAt(argv, db, done, clean, i).dbs :: good(d)
    decreases |argv| - i
  {
    if i < |argv| {
      match db(i)
      case Ok(d, at) => if at < |argv| { DbsYield(argv, db, good, done + [d], clean, at); }
      case Bad(at) => DbsYield(argv, db, good, done, false, NextDatabase(argv, at + 1));
      case Stop =>
    }
  }

  /** Whatever the arguments, every accepted database is well-formed: names and strings are UTF-8
      within their limits, numbers fit 64 bits, ranges are ordered, every table has columns and
      between 1 and UPTO_MAX rows, and every group count is positive, at most the row count of its
      table, and never on fixed data. */
  lemma {:induction false} AcceptedAreWellFormed(args: seq<Arg>)
    ensures forall d <- Run(LexAll(args)).dbs :: DbOk(d)
  {
    var argv := LexAll(args);
    var body := Bodies(argv);
    ConcreteBodiesAdvance(argv);
    forall rows: nat ensures Yields(body(rows), OkBody(rows)) {
      BodiesYield(args, rows);
    }
    TblItemsYield(args, body);
    DbItemsYield(args, body);
    RunYields(argv, DbItems(argv, body), (d: Db) => DbOk(d));
  }

  lemma RunYields(argv: Argv, db: Parser<Db>, good: Db -> bool)
    requires Advances(db, |argv|) && Yields(db, good)
    ensures forall d <- RunWith(argv, db).dbs :: good(d)
  {
    if |argv| >= DB_SPEC_LENGTH_MIN {
      DbsYield(argv, db, good, [], true, 0);
      DbsYield(argv, db, good, [], false, NextDatabase(argv, 1));
    }
  }

  // ---------- every accepted database has its own arguments ----------

  /** From `i` on, disjoint stretches of arguments spell the databases in order; each starts at a
      DATABASE flag and ends at the end, or where the next DATABASE flag stands. */
  ghost predicate Scattered(argv: Argv, spells: Relation<Db>, i: nat, ds: seq<Db>)
    decreases |ds|
  {
    ds == [] ||
    exists p: nat, k: nat ::
      && i <= p < k <= |argv| && F.Matches(argv[p].word, F.D, F.Database)
      && spells(p, k, ds[0]) && ClosesDb(argv)(k) && Scattered(argv, spells, k, ds[1..])
  }

  lemma ScatteredEarlier(argv: Argv, spells: Relation<Db>, h: nat, i: nat, ds: seq<Db>)
    requires h <= i && Scattered(argv, spells, i, ds)
    ensures Scattered(argv, spells, h, ds)
  {
  }

  lemma ScatteredMore(argv: Argv, db: Parser<Db>, spells: Relation<Db>, i: nat, d: Db, at: nat, rest: seq<Db>)
    requires DbsAgree(argv, db, spells) && i < |argv| && F.Matches(argv[i].word, F.D, F.Database) && db(i) == Ok(d, at)
    requires Scattered(argv, spells, at, rest)
    ensures Scattered(argv, spells, i, [d] + rest)
  {
    assert ([d] + rest)[1..] == rest;
    assert spells(i, at, d) && ClosesDb(argv)(at);
  }

  lemma {:induction false} DbsScattered(argv: Argv, db: Parser<Db>, spells: Relation<Db>, done: seq<Db>, clean: bool, i: nat)
    returns (ds: seq<Db>)
    requires DbsAgree(argv, db, spells)
    requires i < |argv| ==> F.Matches(argv[i].word, F.D, F.Database)
    ensures DbsAt(argv, db, done, clean, i).dbs == done + ds && Scattered(argv, spells, i, ds)
    decreases |argv| - i
  {
    ds := [];
    if i < |argv| {
      match db(i)
      case Ok(d, at) =>
        var rest := [];
        if at < |argv| {
          rest := DbsScattered(argv, db, spells, done + [d], clean, at);
        }
        ds := [d] + rest;
        assert done + [d] + rest == done + ds;
        ScatteredMore(argv, db, spells, i, d, at, rest);
      case Bad(at) =>
        ds := DbsResume(argv, db, spells, done, i, at);
      case Stop =>
    }
  }

  lemma {:induction false} DbsResume(argv: Argv, db: Parser<Db>, spells: Relation<Db>, done: seq<Db>, i: nat, at: nat)
    returns (ds: seq<Db>)
    requires DbsAgree(argv, db, spells) && i <= at && i < |argv|
    ensures DbsAt(argv, db, done, false, NextDatabase(argv, at + 1)).dbs == done + ds && Scattered(argv, spells, i, ds)
    decreases |argv| - i, 0
  {
    var next := NextDatabase(argv, at + 1);
    NextDatabaseMatches(argv, at + 1);
    ds := DbsScattered(argv, db, spells, done, false, next);
    ScatteredEarlier(argv, spells, i, next, ds);
  }

  lemma {:induction false} NextDatabaseMatches(argv: Argv, from: nat)
    ensures var at := NextDatabase(argv, from); at < |argv| ==> F.Matches(argv[at].word, F.D, F.Database)
    decreases |argv| - from
  {
    if from < |argv| {
      NextDatabaseMatches(argv, from + 1);
    }
  }

  /** The databases of any run, in argument order. */
  lemma {:induction false} AcceptedAreSpelled(argv: Argv)
    ensures Scattered(argv, SpelledDbSpecs(argv), 0, Run(argv).dbs)
  {
    ConcreteDbsAgree(argv);
    RunScattered(argv, DbItems(argv, Bodies(argv)), SpelledDbSpecs(argv));
  }

  lemma RunScattered(argv: Argv, db: Parser<Db>, spells: Relation<Db>)
    requires DbsAgree(argv, db, spells)
    ensures Scattered(argv, spells, 0, RunWith(argv, db).dbs)
  {
    if |argv| >= DB_SPEC_LENGTH_MIN {
      var ds;
      if F.Matches(argv[0].word, F.D, F.Database) {
        ds := DbsScattered(argv, db, spells, [], true, 0);
      } else {
        ds := DbsResume(argv, db, spells, [], 0, 0);
      }
      assert [] + ds == ds;
    }
  }
}
