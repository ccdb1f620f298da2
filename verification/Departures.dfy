/** Command lines on which the recovery loses a DB_SPEC that is whole by itself. */
module Departures {
  import opened Octets
  import opened Numbers
  import opened Specs
  import opened Tokens
  import opened Parsing
  import opened Members
  import opened Grammar
  import opened Recovery
  import F = Flags

  /** `-d B -t U 5 -c X -i` */
  function Whole(): (args: seq<Arg>)
    ensures |args| == 8
  {
    ["-d", "B", "-t", "U", "5", "-c", "X", "-i"]
  }

  function WholeDb(): Db {
    Db("B", [Tbl("U", 5, [Col("X", Plain(Member(IntDefault(Signed), None)))])])
  }

  // ---------- reading the arguments ----------

  predicate Here(k: nat) {
    true
  }

  /** LexAll, to be looked at argument by argument. */
  ghost predicate Lexed(argv: Argv, args: seq<Arg>) {
    |argv| == |args| && forall k: nat {:trigger Here(k)} :: Here(k) && k < |args| ==> argv[k] == Lex(args[k])
  }

  predicate IsFlag(t: Token, n: F.Name) {
    t.word == F.Short(n)
  }

  predicate IsLetter(t: Token, c: Octet) {
    t.text == [c] && t.name && t.word == F.Other(false)
  }

  predicate IsNumber(t: Token, n: nat) {
    t.unsigned == Some(n) && t.signed == Some(n) && t.word == F.Other(false)
  }

  lemma FlagToken(argv: Argv, args: seq<Arg>, k: nat, n: F.Name)
    requires Lexed(argv, args) && k < |args| && args[k] == F.ShortText(n)
    ensures IsFlag(argv[k], n)
  {
    assert Here(k);
    F.ClassifiesShort(n);
  }

  lemma LetterToken(argv: Argv, args: seq<Arg>, k: nat, c: Octet)
    requires Lexed(argv, args) && k < |args| && args[k] == [c] && 'A' <= c <= 'Z'
    ensures IsLetter(argv[k], c)
  {
    assert Here(k);
    assert CountFrom([c], 1) == Some(0);
    assert CountFrom([c], 0) == Some(1);
  }

  lemma DigitToken(argv: Argv, args: seq<Arg>, k: nat, c: Octet)
    requires Lexed(argv, args) && k < |args| && args[k] == [c] && IsDigit(c)
    ensures IsNumber(argv[k], DigitValue(c))
  {
    assert Here(k);
    assert [c][1..] == [];
    assert Value([c]) == DigitValue(c);
  }

  // ---------- the whole DB_SPEC ----------

  /** The tokens of `Whole` at `i`, the last ones. */
  predicate WholeAt(argv: Argv, i: nat) {
    && |argv| == i + 8
    && IsFlag(argv[i], F.D) && IsLetter(argv[i + 1], 'B') && IsFlag(argv[i + 2], F.T) && IsLetter(argv[i + 3], 'U')
    && IsNumber(argv[i + 4], 5) && IsFlag(argv[i + 5], F.C) && IsLetter(argv[i + 6], 'X') && IsFlag(argv[i + 7], F.I)
  }

  lemma WholeIsRead(argv: Argv, args: seq<Arg>, i: nat)
    requires Lexed(argv, args) && |args| == i + 8 && args[i..] == Whole()
    ensures WholeAt(argv, i)
  {
    assert forall k :: 0 <= k < 8 ==> args[i + k] == Whole()[k];
    FlagToken(argv, args, i, F.D);
    LetterToken(argv, args, i + 1, 'B');
    FlagToken(argv, args, i + 2, F.T);
    LetterToken(argv, args, i + 3, 'U');
    DigitToken(argv, args, i + 4, '5');
    FlagToken(argv, args, i + 5, F.C);
    LetterToken(argv, args, i + 6, 'X');
    FlagToken(argv, args, i + 7, F.I);
  }

  lemma WholeBody(argv: Argv, i: nat)
    requires WholeAt(argv, i)
    ensures BodyAt(argv, 5, i + 7) == Ok(Plain(Member(IntDefault(Signed), None)), i + 8)
  {
    assert KindAt(argv, i + 7) == Ok(IntDefault(Signed), i + 8);
  }

  lemma WholeTbl(argv: Argv, body: BodyParser, i: nat)
    requires WholeAt(argv, i) && BodiesAdvance(body, |argv|) && body(5)(i + 7) == Ok(WholeDb().tbls[0].cols[0].body, i + 8)
    ensures TblAt(argv, body, i + 2) == Ok(WholeDb().tbls[0], i + 8)
  {
    assert TblHead(argv, i + 2) == Ok(("U", 5), i + 5);
    assert ColAt(argv, body(5), i + 5) == Ok(WholeDb().tbls[0].cols[0], i + 8);
  }

  lemma WholeIsParsed(argv: Argv, i: nat)
    requires WholeAt(argv, i)
    ensures DbParser(argv)(i) == Ok(WholeDb(), i + 8)
  {
    ConcreteBodiesAdvance(argv);
    WholeBody(argv, i);
    WholeTbl(argv, Bodies(argv), i);
    var tbl := TblItems(argv, Bodies(argv));
    assert tbl(i + 2) == Ok(WholeDb().tbls[0], i + 8);
    assert DbAt(argv, tbl, i) == Ok(WholeDb(), i + 8);
  }

  lemma RunIs(argv: Argv) returns (db: Parser<Db>)
    ensures db == DbParser(argv) && Advances(db, |argv|) && Run(argv) == RunWith(argv, db)
  {
    ConcreteBodiesAdvance(argv);
    db := DbParser(argv);
  }

  lemma OneDb(argv: Argv, db: Parser<Db>, d: Db)
    requires Advances(db, |argv|) && |argv| == 8 && IsFlag(argv[0], F.D) && db(0) == Ok(d, 8)
    ensures RunWith(argv, db) == Outcome([d], true)
  {
    assert [] + [d] == [d];
  }

  lemma WholeRun(argv: Argv)
    requires Lexed(argv, Whole())
    ensures Run(argv) == Outcome([WholeDb()], true)
  {
    assert Whole()[0..] == Whole();
    WholeIsRead(argv, Whole(), 0);
    WholeIsParsed(argv, 0);
    var db := RunIs(argv);
    OneDb(argv, db, WholeDb());
  }

  lemma AllLexed(args: seq<Arg>)
    ensures Lexed(LexAll(args), args)
  {
  }

  /** By itself it is accepted. */
  lemma WholeIsAccepted()
    ensures Run(LexAll(Whole())) == Outcome([WholeDb()], true)
  {
    AllLexed(Whole());
    WholeRun(LexAll(Whole()));
  }

  /** There is no database flag behind its first argument. */
  lemma NothingBehind(argv: Argv, i: nat)
    requires WholeAt(argv, i)
    ensures NextDatabase(argv, i + 1) == |argv|
  {
    NextDatabaseIsFirst(argv, i + 1, |argv|);
  }

  // ---------- three beginnings ----------

  /** `-d A -t T 5` */
  function Beginning(): (args: seq<Arg>)
    ensures |args| == 5
  {
    ["-d", "A", "-t", "T", "5"]
  }

  predicate BeginningAt(argv: Argv) {
    && |argv| >= 8
    && IsFlag(argv[0], F.D) && IsLetter(argv[1], 'A') && IsFlag(argv[2], F.T) && IsLetter(argv[3], 'T') && IsNumber(argv[4], 5)
  }

  lemma BeginningIsRead(argv: Argv, args: seq<Arg>)
    requires Lexed(argv, args) && |args| >= 8 && args[..5] == Beginning()
    ensures BeginningAt(argv)
  {
    assert forall k :: 0 <= k < 5 ==> args[k] == Beginning()[k];
    FlagToken(argv, args, 0, F.D);
    LetterToken(argv, args, 1, 'A');
    FlagToken(argv, args, 2, F.T);
    LetterToken(argv, args, 3, 'T');
    DigitToken(argv, args, 4, '5');
  }

  lemma BeginningIsTaken(argv: Argv, w: Walker)
    requires IsWalk(argv, w)
    requires BeginningAt(argv)
    ensures w(DbName, 1) == w(FirstColumn(5), 5)
  {
    StepTo(argv, w, DbName, 1);
    StepTo(argv, w, FirstTable, 2);
    StepTo(argv, w, TblName, 3);
    StepTo(argv, w, Rows, 4);
  }

  /** `-c X -i` behind it. */
  predicate ColumnAt(argv: Argv) {
    |argv| >= 8 && IsFlag(argv[5], F.C) && IsLetter(argv[6], 'X') && IsFlag(argv[7], F.I)
  }

  lemma ColumnIsRead(argv: Argv, args: seq<Arg>)
    requires Lexed(argv, args) && |args| >= 8 && args[5] == "-c" && args[6] == "X" && args[7] == "-i"
    ensures ColumnAt(argv)
  {
    FlagToken(argv, args, 5, F.C);
    LetterToken(argv, args, 6, 'X');
    FlagToken(argv, args, 7, F.I);
  }

  lemma ColumnIsTaken(argv: Argv, w: Walker)
    requires IsWalk(argv, w)
    requires BeginningAt(argv) && ColumnAt(argv)
    ensures w(DbName, 1) == w(IntegerMore(Place(5, false), Signed), 8)
  {
    BeginningIsTaken(argv, w);
    StepTo(argv, w, FirstColumn(5), 5);
    StepTo(argv, w, ColName(5), 6);
    StepTo(argv, w, ColType(5), 7);
  }

  /** A run whose first DB_SPEC fails, and behind whose search nothing is left. */
  lemma NothingIsFound(argv: Argv, db: Parser<Db>)
    requires Advances(db, |argv|) && BeginningAt(argv) && !db(0).Ok?
    requires db(0).Bad? ==> NextDatabase(argv, db(0).at + 1) == |argv|
    ensures RunWith(argv, db) == Outcome([], false)
  {
    assert DbsAt(argv, db, [], false, |argv|) == Outcome([], false);
    assert RunWith(argv, db) == DbsAt(argv, db, [], true, 0);
    match db(0)
    case Bad(at) =>
      assert DbsAt(argv, db, [], true, 0) == DbsAt(argv, db, [], false, NextDatabase(argv, at + 1));
    case _ =>
  }

  lemma RefusedFlagVerdict(argv: Argv, w: Walker)
    requires IsWalk(argv, w)
    requires BeginningAt(argv) && IsFlag(argv[5], F.D)
    ensures w(DbName, 1) == Refused(5, Unexpected)
  {
    BeginningIsTaken(argv, w);
    StepTo(argv, w, FirstColumn(5), 5);
  }

  lemma RefusedFlagRun(argv: Argv, args: seq<Arg>)
    requires Lexed(argv, args) && args == Beginning() + Whole()
    ensures Run(argv) == Outcome([], false)
  {
    assert args[..5] == Beginning() && args[5..] == Whole();
    BeginningIsRead(argv, args);
    WholeIsRead(argv, args, 5);
    var w := WalkerOf(argv);
    WalkerWalks(argv);
    RefusedFlagVerdict(argv, w);
    assert Judge(argv, 0) == w(DbName, 1);
    VerdictIff(argv, 0);
    NothingBehind(argv, 5);
    var db := RunIs(argv);
    NothingIsFound(argv, db);
  }

  /** `-d A -t T 5 -d B -t U 5 -c X -i`: the argument that is refused is itself the database flag
      of a whole DB_SPEC, and nothing is accepted. */
  lemma RefusedFlagWitness()
    ensures Run(LexAll(Beginning() + Whole())) == Outcome([], false) && Run(LexAll(Whole())) == Outcome([WholeDb()], true)
  {
    AllLexed(Beginning() + Whole());
    RefusedFlagRun(LexAll(Beginning() + Whole()), Beginning() + Whole());
    WholeIsAccepted();
  }

  lemma SecondGroupVerdict(argv: Argv, w: Walker)
    requires IsWalk(argv, w)
    requires BeginningAt(argv) && ColumnAt(argv) && |argv| >= 11
    requires IsFlag(argv[8], F.G) && IsNumber(argv[9], 1) && IsFlag(argv[10], F.G)
    ensures w(DbName, 1) == Refused(10, SecondGroup)
  {
    var at := Place(5, false);
    ColumnIsTaken(argv, w);
    StepTo(argv, w, IntegerMore(at, Signed), 8);
    StepTo(argv, w, Count(at), 9);
    StepTo(argv, w, Partition(at), 10);
  }

  /** `-d A -t T 5 -c X -i -g 1 -g` */
  function Grouping(): (args: seq<Arg>)
    ensures |args| == 11
  {
    Beginning() + ["-c", "X", "-i", "-g", "1", "-g"]
  }

  lemma SecondGroupRun(argv: Argv, args: seq<Arg>)
    requires Lexed(argv, args) && args == Grouping() + Whole()
    ensures Run(argv) == Outcome([], false)
  {
    assert args[..5] == Beginning() && args[11..] == Whole();
    BeginningIsRead(argv, args);
    ColumnIsRead(argv, args);
    FlagToken(argv, args, 8, F.G);
    DigitToken(argv, args, 9, '1');
    FlagToken(argv, args, 10, F.G);
    var w := WalkerOf(argv);
    WalkerWalks(argv);
    SecondGroupVerdict(argv, w);
    assert Judge(argv, 0) == w(DbName, 1);
    VerdictIff(argv, 0);
    WholeIsRead(argv, args, 11);
    NothingBehind(argv, 11);
    var db := RunIs(argv);
    NothingIsFound(argv, db);
  }

  /** `-d A -t T 5 -c X -i -g 1 -g -d B -t U 5 -c X -i`: the flag of the whole DB_SPEC stands right
      behind that of a second GRP_SPEC. */
  lemma SecondGroupWitness()
    ensures Run(LexAll(Grouping() + Whole())) == Outcome([], false) && Run(LexAll(Whole())) == Outcome([WholeDb()], true)
  {
    AllLexed(Grouping() + Whole());
    SecondGroupRun(LexAll(Grouping() + Whole()), Grouping() + Whole());
    WholeIsAccepted();
  }

  lemma ReversedVerdict(argv: Argv, w: Walker)
    requires IsWalk(argv, w)
    requires BeginningAt(argv) && ColumnAt(argv) && |argv| >= 12
    requires IsFlag(argv[8], F.R) && IsFlag(argv[9], F.R) && IsNumber(argv[10], 5) && IsNumber(argv[11], 3)
    ensures w(DbName, 1) == Refused(11, Reversed)
  {
    var at := Place(5, false);
    ColumnIsTaken(argv, w);
    StepTo(argv, w, IntegerMore(at, Signed), 8);
    StepTo(argv, w, RandomMore(at, Signed), 9);
    StepTo(argv, w, Minimum(at, Signed), 10);
    StepTo(argv, w, Maximum(at, Signed, 5), 11);
  }

  /** `-d A -t T 5 -c X -i -r -r 5 3` */
  function Reversing(): (args: seq<Arg>)
    ensures |args| == 12
  {
    Beginning() + ["-c", "X", "-i", "-r", "-r", "5", "3"]
  }

  lemma ReversedRun(argv: Argv, args: seq<Arg>)
    requires Lexed(argv, args) && args == Reversing() + Whole()
    ensures Run(argv) == Outcome([], false)
  {
    assert args[..5] == Beginning();
    BeginningIsRead(argv, args);
    ColumnIsRead(argv, args);
    FlagToken(argv, args, 8, F.R);
    FlagToken(argv, args, 9, F.R);
    DigitToken(argv, args, 10, '5');
    DigitToken(argv, args, 11, '3');
    var w := WalkerOf(argv);
    WalkerWalks(argv);
    ReversedVerdict(argv, w);
    assert Judge(argv, 0) == w(DbName, 1);
    VerdictIff(argv, 0);
    var db := RunIs(argv);
    NothingIsFound(argv, db);
  }

  /** `-d A -t T 5 -c X -i -r -r 5 3 -d B -t U 5 -c X -i`: a maximum below its minimum ends the
      run. */
  lemma ReversedRangeWitness()
    ensures Run(LexAll(Reversing() + Whole())) == Outcome([], false) && Run(LexAll(Whole())) == Outcome([WholeDb()], true)
  {
    AllLexed(Reversing() + Whole());
    ReversedRun(LexAll(Reversing() + Whole()), Reversing() + Whole());
    WholeIsAccepted();
  }
}
