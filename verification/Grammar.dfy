/** The upper half of the generate grammar: columns, tables and databases, parametric in the
    parser of column bodies, and the recovery that looks for the next DB_SPEC. */
module Grammar {
  import opened Octets
  import opened Numbers
  import opened Specs
  import opened Tokens
  import opened Parsing
  import opened Members
  import F = Flags

  const DB_SPEC_LENGTH_MIN: nat := 8

  /** ROW_COUNT to the parser of the bodies in a table of so many rows. */
  type BodyParser = nat -> Parser<Body>

  function Bodies(argv: Argv): BodyParser {
    (rows: nat) => (i: nat) => if i < |argv| then BodyAt(argv, rows, i) else Stop
  }

  ghost predicate BodiesAdvance(body: BodyParser, n: nat) {
    forall rows: nat {:trigger body(rows)} :: Advances(body(rows), n)
  }

  lemma ConcreteBodiesAdvance(argv: Argv)
    ensures BodiesAdvance(Bodies(argv), |argv|)
  {
  }

  /** A table may end here. */
  predicate ClosesTable(argv: Argv, j: nat) {
    j == |argv| || (j < |argv| && (F.Is(argv[j].word, F.T, F.Table) || F.Is(argv[j].word, F.D, F.Database)))
  }

  /** A database may end here. */
  predicate ClosesDatabase(argv: Argv, j: nat) {
    j == |argv| || (j < |argv| && F.Is(argv[j].word, F.D, F.Database))
  }

  /** The column whose flag stands at `i`. */
  function ColAt(argv: Argv, body: Parser<Body>, i: nat): (r: Parse<Col>)
    requires Advances(body, |argv|) && i < |argv|
    ensures Forward(r, i, |argv|) && (r.Ok? ==> i + 2 < r.at)
  {
    if i + 1 == |argv| then Stop
    else if !argv[i + 1].name then Bad(i + 1)
    else if i + 2 == |argv| then Stop
    else
      var (b, at) :- body(i + 2);
      Ok(Col(argv[i + 1].text, b), at)
  }

  function ColItems(argv: Argv, body: Parser<Body>): (item: Parser<Col>)
    requires Advances(body, |argv|)
    ensures Advances(item, |argv|)
  {
    (i: nat) => if i < |argv| then ColAt(argv, body, i) else Stop
  }

  function Columns(argv: Argv): nat -> bool {
    (i: nat) => i < |argv| && F.Is(argv[i].word, F.C, F.Column)
  }

  /** TBL_NAME, ROW_COUNT and the flag of the first column of the table whose flag stands at `i`;
      that column flag is recognised by flag_match, unlike the flags of later columns. */
  function TblHead(argv: Argv, i: nat): (r: Parse<(Arg, nat)>)
    requires i < |argv|
    ensures Forward(r, i, |argv|) && (r.Ok? ==> r.at == i + 3 < |argv| && 1 <= r.value.1 <= UPTO_MAX)
  {
    if i + 1 == |argv| then Stop
    else if !argv[i + 1].name then Bad(i + 1)
    else if i + 2 == |argv| then Stop
    else if RowCount(argv[i + 2].unsigned).None? then Bad(i + 2)
    else if i + 3 == |argv| then Stop
    else if !F.Matches(argv[i + 3].word, F.C, F.Column) then Bad(i + 3)
    else Ok((argv[i + 1].text, RowCount(argv[i + 2].unsigned).value), i + 3)
  }

  function ColsAt(argv: Argv, body: Parser<Body>, done: seq<Col>, j: nat): (r: Parse<seq<Col>>)
    requires Advances(body, |argv|) && j <= |argv|
    ensures Forward(r, j, |argv|)
  {
    Many(ColItems(argv, body), Columns(argv), |argv|, done, j)
  }

  function TblAt(argv: Argv, body: BodyParser, i: nat): (r: Parse<Tbl>)
    requires BodiesAdvance(body, |argv|) && i < |argv|
    ensures Forward(r, i, |argv|) && (r.Ok? ==> i + 5 < r.at)
  {
    var (head, first) :- TblHead(argv, i);
    var (c, at) :- ColAt(argv, body(head.1), first);
    var (cols, end) :- ColsAt(argv, body(head.1), [c], at);
    Ok(Tbl(head.0, head.1, cols), end)
  }

  function TblItems(argv: Argv, body: BodyParser): (item: Parser<Tbl>)
    requires BodiesAdvance(body, |argv|)
    ensures Advances(item, |argv|)
  {
    (i: nat) => if i < |argv| then TblAt(argv, body, i) else Stop
  }

  function Tables(argv: Argv): nat -> bool {
    (i: nat) => i < |argv| && F.Is(argv[i].word, F.T, F.Table)
  }

  function TblsAt(argv: Argv, tbl: Parser<Tbl>, done: seq<Tbl>, j: nat): (r: Parse<seq<Tbl>>)
    requires Advances(tbl, |argv|) && j <= |argv|
    ensures Forward(r, j, |argv|)
  {
    Many(tbl, Tables(argv), |argv|, done, j)
  }

  /** The DB_SPEC whose flag stands at `i`. */
  function DbAt(argv: Argv, tbl: Parser<Tbl>, i: nat): (r: Parse<Db>)
    requires Advances(tbl, |argv|) && i + DB_SPEC_LENGTH_MIN <= |argv|
    ensures Forward(r, i, |argv|) && (r.Ok? ==> i + 2 < r.at)
  {
    if !argv[i + 1].name then Bad(i + 1)
    else if !F.Matches(argv[i + 2].word, F.T, F.Table) then Bad(i + 2)
    else
      var (t, at) :- tbl(i + 2);
      var (tbls, end) :- TblsAt(argv, tbl, [t], at);
      Ok(Db(argv[i + 1].text, tbls), end)
  }

  /** Too few arguments left for a DB_SPEC end the parse. */
  function DbItems(argv: Argv, body: BodyParser): (item: Parser<Db>)
    requires BodiesAdvance(body, |argv|)
    ensures Advances(item, |argv|)
  {
    var tbl := TblItems(argv, body);
    (i: nat) => if i + DB_SPEC_LENGTH_MIN <= |argv| then DbAt(argv, tbl, i) else Stop
  }

  /** The first argument from `from` on that flag_match takes for a DATABASE flag. */
  function NextDatabase(argv: Argv, from: nat): (at: nat)
    ensures at <= |argv| && (from <= |argv| ==> from <= at)
    decreases |argv| - from
  {
    if from >= |argv| then |argv|
    else if F.Matches(argv[from].word, F.D, F.Database) then from
    else NextDatabase(argv, from + 1)
  }

  lemma {:induction false} NextDatabaseIsFirst(argv: Argv, from: nat, at: nat)
    requires at <= |argv| && (from <= |argv| ==> from <= at) && (from > |argv| ==> at == |argv|)
    requires at < |argv| ==> F.Matches(argv[at].word, F.D, F.Database)
    requires forall k :: from <= k < at ==> !F.Matches(argv[k].word, F.D, F.Database)
    ensures NextDatabase(argv, from) == at
    decreases |argv| - from
  {
    if from < at {
      NextDatabaseIsFirst(argv, from + 1, at);
    }
  }

  /** The accepted databases and whether every argument belonged to one. */
  datatype Outcome = Outcome(dbs: seq<Db>, clean: bool)

  /** The rest of a run that stands at a DATABASE flag or at the end. */
  function DbsAt(argv: Argv, db: Parser<Db>, done: seq<Db>, clean: bool, i: nat): Outcome
    requires Advances(db, |argv|)
    decreases |argv| - i
  {
    if i >= |argv| then Outcome(done, false)
    else
      match db(i)
      case Ok(d, at) =>
        if at == |argv| then Outcome(done + [d], clean) else DbsAt(argv, db, done + [d], clean, at)
      case Bad(at) => DbsAt(argv, db, done, false, NextDatabase(argv, at + 1))
      case Stop => Outcome(done, false)
  }

  /** A run over the DB_SPECs that `db` parses. */
  function RunWith(argv: Argv, db: Parser<Db>): Outcome
    requires Advances(db, |argv|)
  {
    if |argv| < DB_SPEC_LENGTH_MIN then Outcome([], false)
    else if F.Matches(argv[0].word, F.D, F.Database) then DbsAt(argv, db, [], true, 0)
    else DbsAt(argv, db, [], false, NextDatabase(argv, 1))
  }

  /** A whole generate run. */
  function Run(argv: Argv): Outcome {
    ConcreteBodiesAdvance(argv);
    RunWith(argv, DbItems(argv, Bodies(argv)))
  }
}
