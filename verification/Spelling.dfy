/** The command lines of the generate grammar, declaratively: which argument ranges spell a given
    list of databases.  The recursive parser accepts exactly these, and no command line can be
    read in two ways. */
module Spelling {
  import opened Octets
  import opened Numbers
  import opened Specs
  import opened Tokens
  import opened Parsing
  import opened Members
  import opened BodySpelling
  import opened Grammar
  import F = Flags

  ghost function SpelledBodies(argv: Argv): nat -> Relation<Body> {
    (rows: nat) => SpelledBy(argv, SpelledMembers(argv, rows, false), SpelledMembers(argv, rows, true))
  }

  /** The parser and the relation agree wherever an item may end. */
  ghost predicate Agree<T(!new)>(item: Parser<T>, spells: Relation<T>, closed: nat -> bool, n: nat) {
    Advances(item, n) && ItemSound(item, spells, closed, n) && ItemComplete(item, spells, closed, n)
  }

  /** A body or column may end here. */
  ghost function ClosesCol(argv: Argv): nat -> bool {
    (j: nat) => j <= |argv| && Follows(argv, false, j)
  }

  /** A table may end here. */
  ghost function ClosesTbl(argv: Argv): nat -> bool {
    (j: nat) => ClosesTable(argv, j)
  }

  /** A database may end here. */
  ghost function ClosesDb(argv: Argv): nat -> bool {
    (j: nat) => ClosesDatabase(argv, j)
  }

  ghost predicate BodiesAgree(argv: Argv, body: BodyParser, spells: nat -> Relation<Body>) {
    forall rows: nat {:trigger body(rows)} :: Agree(body(rows), spells(rows), ClosesCol(argv), |argv|)
  }

  lemma ConcreteBodiesAgree(argv: Argv)
    ensures BodiesAgree(argv, Bodies(argv), SpelledBodies(argv))
  {
    ConcreteBodiesAdvance(argv);
    var closed, n := ClosesCol(argv), |argv|;
    forall rows: nat ensures Agree(Bodies(argv)(rows), SpelledBodies(argv)(rows), closed, n) {
      var body, spells := Bodies(argv)(rows), SpelledBodies(argv)(rows);
      forall i: nat | i < n && body(i).Ok? ensures spells(i, body(i).at, body(i).value) && closed(body(i).at) {
        BodySound(argv, rows, i);
      }
      forall i: nat, k: nat, b: Body | i < n && spells(i, k, b) ensures k <= n && (closed(k) ==> body(i) == Ok(b, k)) {
        BodyInRange(argv, rows, i, k, b);
        if closed(k) {
          BodyComplete(argv, rows, i, k, b);
        }
      }
    }
  }

  // ---------- columns ----------

  /** COL_NAME and its body; the flag at `i` is the caller's business. */
  ghost predicate ColSpelled(argv: Argv, spells: Relation<Body>, i: nat, j: nat, c: Col) {
    i + 2 < |argv| && argv[i + 1].name && argv[i + 1].text == c.name && spells(i + 2, j, c.body)
  }

  ghost function SpelledCols(argv: Argv, spells: Relation<Body>): Relation<Col> {
    (i: nat, j: nat, c: Col) => ColSpelled(argv, spells, i, j, c)
  }

  lemma ColsAgree(argv: Argv, body: Parser<Body>, spells: Relation<Body>)
    requires Agree(body, spells, ClosesCol(argv), |argv|)
    ensures Agree(ColItems(argv, body), SpelledCols(argv, spells), ClosesCol(argv), |argv|)
  {
  }

  // ---------- tables ----------

  ghost predicate TblHeadSpelled(argv: Argv, i: nat, t: Tbl) {
    && i + 3 < |argv|
    && argv[i + 1].name && argv[i + 1].text == t.name && RowCount(argv[i + 2].unsigned) == Some(t.rows)
    && F.Matches(argv[i + 3].word, F.C, F.Column)
  }

  /** One column and then more, each behind a column flag. */
  ghost predicate ColsSpelled(argv: Argv, spells: Relation<Body>, i: nat, j: nat, cs: seq<Col>) {
    && cs != []
    && exists k: nat ::
         && ColSpelled(argv, spells, i, k, cs[0])
         && ManySpelled(SpelledCols(argv, spells), Columns(argv), |argv|, k, j, cs[1..])
  }

  ghost predicate TblSpelled(argv: Argv, spells: nat -> Relation<Body>, i: nat, j: nat, t: Tbl) {
    TblHeadSpelled(argv, i, t) && j <= |argv| && ColsSpelled(argv, spells(t.rows), i + 3, j, t.cols)
  }

  ghost function SpelledTbls(argv: Argv, spells: nat -> Relation<Body>): Relation<Tbl> {
    (i: nat, j: nat, t: Tbl) => TblSpelled(argv, spells, i, j, t)
  }

  lemma ColsSound(argv: Argv, body: Parser<Body>, spells: Relation<Body>, i: nat)
    requires Agree(body, spells, ClosesCol(argv), |argv|) && i < |argv| && ColAt(argv, body, i).Ok?
    requires var Ok(c, k) := ColAt(argv, body, i); ColsAt(argv, body, [c], k).Ok?
    ensures var Ok(c, k) := ColAt(argv, body, i);
            var Ok(cs, j) := ColsAt(argv, body, [c], k);
            ColsSpelled(argv, spells, i, j, cs) && ClosesTbl(argv)(j)
  {
    ColsAgree(argv, body, spells);
    var item := ColItems(argv, body);
    assert item(i) == ColAt(argv, body, i);
    var Ok(c, k) := item(i);
    var rest := ManySound(item, Columns(argv), SpelledCols(argv, spells), ClosesCol(argv), |argv|, [c], k);
    assert ([c] + rest)[1..] == rest;
  }

  lemma ColsComplete(argv: Argv, body: Parser<Body>, spells: Relation<Body>, i: nat, j: nat, cs: seq<Col>)
    requires Agree(body, spells, ClosesCol(argv), |argv|)
    requires i < |argv| && ColsSpelled(argv, spells, i, j, cs) && ClosesTbl(argv)(j)
    ensures ColAt(argv, body, i).Ok?
    ensures var Ok(c, k) := ColAt(argv, body, i); ColsAt(argv, body, [c], k) == Ok(cs, j)
  {
    ColsAgree(argv, body, spells);
    var item, relation := ColItems(argv, body), SpelledCols(argv, spells);
    var k: nat :| ColSpelled(argv, spells, i, k, cs[0]) && ManySpelled(relation, Columns(argv), |argv|, k, j, cs[1..]);
    assert relation(i, k, cs[0]);
    ManyComplete(item, Columns(argv), relation, ClosesCol(argv), |argv|, [cs[0]], k, j, cs[1..]);
    assert item(i) == ColAt(argv, body, i);
    assert [cs[0]] + cs[1..] == cs;
  }

  lemma TblSound(argv: Argv, body: BodyParser, spells: nat -> Relation<Body>, i: nat)
    requires BodiesAgree(argv, body, spells) && BodiesAdvance(body, |argv|) && i < |argv| && TblAt(argv, body, i).Ok?
    ensures var Ok(t, j) := TblAt(argv, body, i); TblSpelled(argv, spells, i, j, t) && ClosesTbl(argv)(j)
  {
    var Ok(head, first) := TblHead(argv, i);
    ColsSound(argv, body(head.1), spells(head.1), first);
  }

  lemma TblComplete(argv: Argv, body: BodyParser, spells: nat -> Relation<Body>, i: nat, j: nat, t: Tbl)
    requires BodiesAgree(argv, body, spells) && BodiesAdvance(body, |argv|) && i < |argv|
    requires TblSpelled(argv, spells, i, j, t) && ClosesTbl(argv)(j)
    ensures TblAt(argv, body, i) == Ok(t, j)
  {
    ColsComplete(argv, body(t.rows), spells(t.rows), i + 3, j, t.cols);
  }

  lemma TblsAgree(argv: Argv, body: BodyParser, spells: nat -> Relation<Body>)
    requires BodiesAgree(argv, body, spells)
    ensures BodiesAdvance(body, |argv|)
    ensures Agree(TblItems(argv, body), SpelledTbls(argv, spells), ClosesTbl(argv), |argv|)
  {
    var item, relation, closed := TblItems(argv, body), SpelledTbls(argv, spells), ClosesTbl(argv);
    forall i: nat | i < |argv| && item(i).Ok? ensures relation(i, item(i).at, item(i).value) && closed(item(i).at) {
      TblSound(argv, body, spells, i);
    }
    forall i: nat, j: nat, t: Tbl | i < |argv| && relation(i, j, t) ensures closed(j) ==> item(i) == Ok(t, j) {
      if closed(j) {
        TblComplete(argv, body, spells, i, j, t);
      }
    }
  }

  // ---------- databases ----------

  ghost predicate DbSpelled(argv: Argv, spells: Relation<Tbl>, i: nat, j: nat, d: Db) {
    && i + DB_SPEC_LENGTH_MIN <= |argv| && j <= |argv|
    && argv[i + 1].name && argv[i + 1].text == d.name && F.Matches(argv[i + 2].word, F.T, F.Table) && d.tbls != []
    && exists k: nat ::
         && spells(i + 2, k, d.tbls[0])
         && ManySpelled(spells, Tables(argv), |argv|, k, j, d.tbls[1..])
  }

  ghost function SpelledDbs(argv: Argv, spells: Relation<Tbl>): Relation<Db> {
    (i: nat, j: nat, d: Db) => DbSpelled(argv, spells, i, j, d)
  }

  lemma DbSound(argv: Argv, tbl: Parser<Tbl>, spells: Relation<Tbl>, i: nat)
    requires Agree(tbl, spells, ClosesTbl(argv), |argv|)
    requires i + DB_SPEC_LENGTH_MIN <= |argv| && DbAt(argv, tbl, i).Ok?
    ensures var Ok(d, j) := DbAt(argv, tbl, i); DbSpelled(argv, spells, i, j, d) && ClosesDb(argv)(j)
  {
    var Ok(t, k) := tbl(i + 2);
    var rest := ManySound(tbl, Tables(argv), spells, ClosesTbl(argv), |argv|, [t], k);
    assert ([t] + rest)[1..] == rest;
  }

  lemma DbComplete(argv: Argv, tbl: Parser<Tbl>, spells: Relation<Tbl>, i: nat, j: nat, d: Db)
    requires Agree(tbl, spells, ClosesTbl(argv), |argv|)
    requires DbSpelled(argv, spells, i, j, d) && ClosesDb(argv)(j)
    ensures DbAt(argv, tbl, i) == Ok(d, j)
  {
    var ts := d.tbls;
    var k: nat :| spells(i + 2, k, ts[0]) && ManySpelled(spells, Tables(argv), |argv|, k, j, ts[1..]);
    ManyComplete(tbl, Tables(argv), spells, ClosesTbl(argv), |argv|, [ts[0]], k, j, ts[1..]);
    assert [ts[0]] + ts[1..] == ts;
  }

  ghost predicate DbsAgree(argv: Argv, db: Parser<Db>, spells: Relation<Db>) {
    Agree(db, spells, ClosesDb(argv), |argv|)
  }

  /** The DB_SPECs of the grammar, all the way down. */
  ghost function SpelledDbSpecs(argv: Argv): Relation<Db> {
    SpelledDbs(argv, SpelledTbls(argv, SpelledBodies(argv)))
  }

  lemma {:induction false} ConcreteDbsAgree(argv: Argv)
    ensures BodiesAdvance(Bodies(argv), |argv|)
    ensures DbsAgree(argv, DbItems(argv, Bodies(argv)), SpelledDbSpecs(argv))
  {
    ConcreteBodiesAdvance(argv);
    ConcreteBodiesAgree(argv);
    DbItemsAgree(argv, Bodies(argv), SpelledBodies(argv));
  }

  lemma DbItemsAgree(argv: Argv, body: BodyParser, spells: nat -> Relation<Body>)
    requires BodiesAgree(argv, body, spells)
    ensures BodiesAdvance(body, |argv|)
    ensures DbsAgree(argv, DbItems(argv, body), SpelledDbs(argv, SpelledTbls(argv, spells)))
  {
    TblsAgree(argv, body, spells);
    var tbl, tblSpells, closed := TblItems(argv, body), SpelledTbls(argv, spells), ClosesDb(argv);
    var db, dbSpells := DbItems(argv, body), SpelledDbs(argv, tblSpells);
    forall i: nat | i < |argv| && db(i).Ok? ensures dbSpells(i, db(i).at, db(i).value) && closed(db(i).at) {
      DbSound(argv, tbl, tblSpells, i);
    }
    forall i: nat, j: nat, d: Db | i < |argv| && dbSpells(i, j, d) ensures closed(j) ==> db(i) == Ok(d, j) {
      if closed(j) {
        DbComplete(argv, tbl, tblSpells, i, j, d);
      }
    }
  }

  // ---------- whole command lines ----------

  function Databases(argv: Argv): nat -> bool {
    (i: nat) => i < |argv| && F.Is(argv[i].word, F.D, F.Database)
  }

  /** A non-empty concatenation of DB_SPECs; flag_match recognises the first flag. */
  ghost predicate Concatenation(argv: Argv, spells: Relation<Db>, ds: seq<Db>) {
    && argv != [] && F.Matches(argv[0].word, F.D, F.Database) && ds != []
    && exists k: nat :: spells(0, k, ds[0]) && ManySpelled(spells, Databases(argv), |argv|, k, |argv|, ds[1..])
  }

  lemma {:induction false} DbsComplete(argv: Argv, db: Parser<Db>, spells: Relation<Db>,
                                       done: seq<Db>, i: nat, j: nat, d: Db, ds: seq<Db>)
    requires DbsAgree(argv, db, spells) && i < |argv|
    requires spells(i, j, d) && ManySpelled(spells, Databases(argv), |argv|, j, |argv|, ds)
    ensures DbsAt(argv, db, done, true, i) == Outcome(done + [d] + ds, true)
    decreases |ds|
  {
    if ds == [] {
      assert done + [d] + ds == done + [d];
    } else {
      var k: nat :| spells(j, k, ds[0]) && ManySpelled(spells, Databases(argv), |argv|, k, |argv|, ds[1..]);
      DbsComplete(argv, db, spells, done + [d], j, k, ds[0], ds[1..]);
      assert done + [d] + [ds[0]] + ds[1..] == done + [d] + ds;
    }
  }

  /** Once a run has failed it never succeeds again. */
  lemma {:induction false} FailureIsFinal(argv: Argv, db: Parser<Db>, done: seq<Db>, i: nat)
    requires Advances(db, |argv|)
    ensures !DbsAt(argv, db, done, false, i).clean
    decreases |argv| - i
  {
    if i < |argv| {
      match db(i)
      case Ok(d, at) => if at < |argv| { FailureIsFinal(argv, db, done + [d], at); }
      case Bad(at) => FailureIsFinal(argv, db, done, NextDatabase(argv, at + 1));
      case Stop =>
    }
  }

  lemma {:induction false} DbsSound(argv: Argv, db: Parser<Db>, spells: Relation<Db>, done: seq<Db>, i: nat)
    returns (d: Db, j: nat, ds: seq<Db>)
    requires DbsAgree(argv, db, spells)
    requires DbsAt(argv, db, done, true, i).clean
    ensures DbsAt(argv, db, done, true, i).dbs == done + [d] + ds
    ensures spells(i, j, d) && ManySpelled(spells, Databases(argv), |argv|, j, |argv|, ds)
    decreases |argv| - i
  {
    if db(i).Bad? {
      FailureIsFinal(argv, db, done, NextDatabase(argv, db(i).at + 1));
    }
    d, j := db(i).value, db(i).at;
    if j == |argv| {
      ds := [];
    } else {
      var e, k, rest := DbsSound(argv, db, spells, done + [d], j);
      ds := [e] + rest;
      assert ds[1..] == rest;
      assert done + [d] + [e] + rest == done + [d] + ds;
    }
  }

  lemma CleanRunIffSpelled(argv: Argv, db: Parser<Db>, spells: Relation<Db>, ds: seq<Db>)
    requires DbsAgree(argv, db, spells)
    requires forall i: nat, k: nat, d: Db {:trigger spells(i, k, d)} :: spells(i, k, d) ==> i + DB_SPEC_LENGTH_MIN <= |argv|
    ensures RunWith(argv, db) == Outcome(ds, true) <==> Concatenation(argv, spells, ds)
  {
    if RunWith(argv, db) == Outcome(ds, true) {
      if !F.Matches(argv[0].word, F.D, F.Database) {
        FailureIsFinal(argv, db, [], NextDatabase(argv, 1));
      }
      var d, j, rest := DbsSound(argv, db, spells, [], 0);
      assert [] + [d] + rest == [d] + rest;
      assert ds[1..] == rest;
    }
    if Concatenation(argv, spells, ds) {
      var k: nat :| spells(0, k, ds[0]) && ManySpelled(spells, Databases(argv), |argv|, k, |argv|, ds[1..]);
      DbsComplete(argv, db, spells, [], 0, k, ds[0], ds[1..]);
      assert [] + [ds[0]] + ds[1..] == ds;
    }
  }

  /** The arguments are a concatenation of DB_SPECs that spell `ds`. */
  ghost predicate CommandLine(argv: Argv, ds: seq<Db>) {
    Concatenation(argv, SpelledDbSpecs(argv), ds)
  }

  /** The run ends with success exactly when the whole command line is a concatenation of
      well-formed DB_SPECs, and then it accepted just what they spell. */
  lemma {:induction false} CleanRunIffCommandLine(argv: Argv, ds: seq<Db>)
    ensures Run(argv) == Outcome(ds, true) <==> CommandLine(argv, ds)
  {
    ConcreteDbsAgree(argv);
    CleanRunIffSpelled(argv, DbItems(argv, Bodies(argv)), SpelledDbSpecs(argv), ds);
  }

  /** No command line has two readings. */
  lemma {:induction false} SpellingIsUnambiguous(argv: Argv, ds: seq<Db>, es: seq<Db>)
    ensures CommandLine(argv, ds) && CommandLine(argv, es) ==> ds == es
  {
    CleanRunIffCommandLine(argv, ds);
    CleanRunIffCommandLine(argv, es);
  }
}
