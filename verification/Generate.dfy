/** A whole generate run on a command line, against the grammar. */
module Generate {
  import opened Octets
  import opened Specs
  import opened Tokens
  import opened Parsing
  import opened Members
  import opened Grammar
  import opened Columns
  import opened Counters
  import opened Heap
  import opened Machine
  import opened Structure
  import opened WellFormed
  import opened Divisions
  import opened Readback
  import opened Printer

  lemma StandardIsStandard()
    ensures AreStandard(Standard())
  {
  }

  lemma BodiesAreBodies(argv: Argv)
    ensures AreBodies(argv, Bodies(argv))
  {
    ConcreteBodiesAdvance(argv);
  }

  lemma TblItemsAreTbls(argv: Argv, body: BodyParser)
    requires BodiesAdvance(body, |argv|)
    ensures IsTbl(argv, body, TblItems(argv, body))
  {
  }

  lemma DbItemsAreDbs(argv: Argv, body: BodyParser)
    requires BodiesAdvance(body, |argv|)
    ensures IsDb(argv, TblItems(argv, body), DbItems(argv, body))
  {
  }

  lemma {:induction false} DatabasesAreCounted(s: Setters, ds: seq<Db>)
    ensures CountDbs(s, ds).databases == |ds|
    decreases |ds|
  {
    if ds != [] {
      DatabasesAreCounted(s, ds[..|ds| - 1]);
    }
  }

  /** The grammar's parsers, which the state machine is held against. */
  lemma Rules(argv: Argv) returns (s: Setters, body: BodyParser, tp: Parser<Tbl>, dp: Parser<Db>)
    ensures s == Standard() && AreStandard(s) && AreBodies(argv, body) && IsTbl(argv, body, tp) && IsDb(argv, tp, dp)
    ensures RunWith(argv, dp) == Run(argv)
  {
    s, body := Standard(), Bodies(argv);
    StandardIsStandard();
    BodiesAreBodies(argv);
    tp, dp := TblItems(argv, body), DbItems(argv, body);
    TblItemsAreTbls(argv, body);
    DbItemsAreDbs(argv, body);
  }

  lemma {:induction false} ViewsHaveTables(s: Setters, ds: seq<Db>)
    requires forall d <- ds :: d.tbls != []
    ensures forall v <- ViewDbs(s, ds) :: v.tbls != []
    decreases |ds|
  {
    if ds != [] {
      ViewsHaveTables(s, ds[..|ds| - 1]);
    }
  }

  /** Reading the terminated list gives the accepted databases. */
  lemma AcceptedAreRead(args: seq<Arg>, z: Sizes, st: State, s: Setters, acc: Accepted, end: nat)
    requires SizesOk(z) && Loaded(s, acc) && Terminated(z, st, acc, end, Run(LexAll(args)))
    ensures ReadDbs(z, st.mem, st.head) == ViewDbs(s, acc.dbs) && st.generator == CountDbs(s, acc.dbs)
    ensures st.generator.databases == |acc.dbs|
    ensures end == DbBytes(z, ViewDbs(s, acc.dbs)) <= |st.mem| && DbsIn(z, st.mem, 0, ViewDbs(s, acc.dbs), end, None)
    ensures s == Standard() ==> (Divided(ReadDbs(z, st.mem, st.head)) <==> RunDivides(acc.dbs))
  {
    AcceptedAreWellFormed(args);
    assert forall d <- acc.dbs :: DbOk(d);
    ViewsHaveTables(s, acc.dbs);
    ChainIsRead(z, st.mem, acc.views, end, st.head);
    DatabasesAreCounted(s, acc.dbs);
    DbsTile(z, st.mem, 0, acc.views, end, None);
    DividedIff(acc.dbs);
  }

  /** What mysql_seed_generate is given. */
  datatype Handover = Handover(mem: Mem, head: Option<nat>, counter: GeneratorCounter)

  /** If the command line is a printed one, reading the memory gives back what was printed. */
  ghost predicate ReadsBack(args: seq<Arg>, z: Sizes, h: Handover) {
    forall st: Style, ds: seq<Db> {:trigger CommandArgs(st, ds)} ::
      ds != [] && (forall d <- ds :: DbOk(d)) && args == CommandArgs(st, ds) ==> DbsRead(ReadDbs(z, h.mem, h.head)) == PlainDbs(ds)
  }

  lemma HandoverIsRead(args: seq<Arg>, z: Sizes, h: Handover)
    requires ReadDbs(z, h.mem, h.head) == ViewDbs(Standard(), Run(LexAll(args)).dbs)
    ensures DbsRead(ReadDbs(z, h.mem, h.head)) == PlainDbs(Run(LexAll(args)).dbs) && ReadsBack(args, z, h)
  {
    AcceptedAreWellFormed(args);
    StoredIsRead(Run(LexAll(args)).dbs);
    forall st: Style, ds: seq<Db> {:trigger CommandArgs(st, ds)}
      | ds != [] && (forall d <- ds :: DbOk(d)) && args == CommandArgs(st, ds)
      ensures DbsRead(ReadDbs(z, h.mem, h.head)) == PlainDbs(ds)
    {
      PrintedIsRead(st, ds);
    }
  }

  /** generate_dispatch up to the call of mysql_seed_generate; `hasMemory` tells whether malloc
      succeeds.  The databases that are handed over, their counters and the status are those of
      the grammar; but if `RunDivides` of them, a setter has divided by zero on the way, and what
      the code does from there on is undefined. */
  method GenerateDispatch(args: seq<Arg>, z: Sizes, hasMemory: bool) returns (success: bool, handover: Option<Handover>)
    requires SizesOk(z)
    ensures var out := Run(LexAll(args));
            && (handover.None? <==> !hasMemory || out.dbs == [])
            && success == (handover.Some? && out.clean)
            && (handover.Some? ==>
                  var Handover(mem, head, counter) := handover.value;
                  && ReadDbs(z, mem, head) == ViewDbs(Standard(), out.dbs) && counter == CountDbs(Standard(), out.dbs)
                  && DbsRead(ReadDbs(z, mem, head)) == PlainDbs(out.dbs) && ReadsBack(args, z, handover.value)
                  && |args| >= DB_SPEC_LENGTH_MIN && |mem| == AllocSize(z, |args|)
                  && DbBytes(z, ViewDbs(Standard(), out.dbs)) <= |mem|
                  && DbsIn(z, mem, 0, ViewDbs(Standard(), out.dbs), DbBytes(z, ViewDbs(Standard(), out.dbs)), None)
                  && (Divided(ReadDbs(z, mem, head)) <==> RunDivides(out.dbs)))
  {
    var tokens := ScanAll(args);
    if |args| < DB_SPEC_LENGTH_MIN || !hasMemory {
      return false, None;
    }
    var parser := new GenerateParser(tokens, z);
    ghost var s, body, tp, dp := Rules(tokens);
    ghost var acc, end := parser.ParseDbSpecs(s, body, tp, dp);
    AcceptedAreRead(args, z, parser.Snap(), s, acc, end);
    if parser.generator.databases == 0 {
      return false, None;
    }
    success, handover := parser.clean, Some(Handover(parser.arena[..], parser.head, parser.generator));
    HandoverIsRead(args, z, handover.value);
  }
}
