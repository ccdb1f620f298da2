/** The generate parser as it runs: a state machine over the arguments that packs specifications
    into one allocation.  Where the C functions end by calling the next parse node, the methods
    return which node that is. */
module Machine {
  import opened Octets
  import opened Numbers
  import opened Specs
  import opened Tokens
  import opened Parsing
  import opened Members
  import opened Grammar
  import opened Columns
  import opened Counters
  import opened Heap
  import F = Flags

  /** The parse node a method ends with. */
  datatype Node =
    | Complete       // generate_parse_complete
    | NextJoin       // parse_next_join
    | NextCol        // parse_next_col_spec
    | NextTbl        // parse_table_complete, parse_next_tbl_spec
    | NextDb         // parse_database_complete, parse_next_db_spec
    | ToJoinSpec     // parse_join_spec
    | Failed         // generate_parse_error
    | Stopped        // an error that ends the run

  /** handle_grp_spec. */
  datatype Handler = GrpSpecs | RefuseFixed | RefuseSecond

  /** The node for the flag that closes a column or JOIN. */
  function Closing(argv: Argv, inJoin: bool, j: nat): Node
    requires j <= |argv|
  {
    if j == |argv| then Complete
    else if inJoin && argv[j].word.Plus? then NextJoin
    else if F.Is(argv[j].word, F.C, F.Column) then NextCol
    else if F.Is(argv[j].word, F.T, F.Table) then NextTbl
    else NextDb
  }

  /** The setters are the standard ones. */
  ghost predicate AreStandard(s: Setters) {
    && (forall name: Arg, m: Member, rows: nat {:trigger PlainSpec(name, m, rows)} :: s.plain(name, m, rows) == PlainSpec(name, m, rows))
    && (forall name: Arg, m: Member {:trigger MemberSpec(name, m)} :: s.member(name, m) == MemberSpec(name, m))
    && (forall name: Arg, m: Member, rows: nat {:trigger JoinLength(m.kind, m.grp, rows, name)} ::
          s.added(name, m, rows) == JoinLength(m.kind, m.grp, rows, name))
    && (forall m: Member, rows: nat, inJoin: bool {:trigger Asks(m.kind, m.grp, rows, inJoin)} ::
          s.asks(m, rows, inJoin) == Asks(m.kind, m.grp, rows, inJoin))
  }

  type Ending = (Kind, nat) -> Parse<Member>

  /** The end of a column or JOIN as the grammar has it. */
  ghost predicate IsTail(argv: Argv, rows: nat, inJoin: bool, tail: Ending) {
    forall k: Kind, j: nat {:trigger Tail(argv, rows, inJoin, k, j)} :: j <= |argv| ==>
      tail(k, j) == Tail(argv, rows, inJoin, k, j)
  }

  ghost function Then(tail: Ending, k: Parse<Kind>): Parse<Member> {
    match k
    case Ok(kind, at) => tail(kind, at)
    case Bad(at) => Bad(at)
    case Stop => Stop
  }

  ghost function TailOf(argv: Argv, rows: nat, inJoin: bool): (tail: Ending)
    ensures IsTail(argv, rows, inJoin, tail)
  {
    (k: Kind, j: nat) => if j <= |argv| then Tail(argv, rows, inJoin, k, j) else Stop
  }

  /** parse_join as the grammar has it. */
  ghost predicate IsJoin(argv: Argv, rows: nat, join: Parser<Member>) {
    Advances(join, |argv|) && forall i: nat {:trigger JoinAt(argv, rows, i)} :: i < |argv| ==> join(i) == JoinAt(argv, rows, i)
  }

  /** COL_NAME of the column whose flag stands at `j`, up to COL_TYPE. */
  ghost function ColHead(argv: Argv, j: nat): (h: Parse<Arg>)
    requires j < |argv|
    ensures h.Ok? ==> h.at == j + 2 < |argv|
  {
    if j + 1 == |argv| then Stop
    else if !argv[j + 1].name then Bad(j + 1)
    else if j + 2 == |argv| then Stop
    else Ok(argv[j + 1].text, j + 2)
  }

  /** The columns once the body of a further one is known. */
  ghost function ColsWith(argv: Argv, one: Parser<Body>, cs: seq<Col>, name: Arg, b: Parse<Body>): Parse<seq<Col>>
    requires Advances(one, |argv|) && (b.Ok? ==> b.at <= |argv|)
  {
    match b
    case Ok(b, at) => ColsAt(argv, one, cs + [Col(name, b)], at)
    case Bad(at) => Bad(at)
    case Stop => Stop
  }

  lemma ColsStep(argv: Argv, one: Parser<Body>, cs: seq<Col>, j: nat)
    requires Advances(one, |argv|) && j < |argv| && F.Is(argv[j].word, F.C, F.Column)
    ensures ColsAt(argv, one, cs, j) ==
            match ColHead(argv, j)
            case Ok(name, at) => ColsWith(argv, one, cs, name, one(at))
            case Bad(at) => Bad(at)
            case Stop => Stop
  {
  }

  /** How a method that reads a heading ends. */
  ghost predicate Headed<T>(h: Parse<T>, stop: Option<Node>, from: nat) {
    match h
    case Ok(_, at) => stop == None && from == at
    case Bad(at) => stop == Some(Failed) && from == at
    case Stop => stop == Some(Stopped)
  }

  /** The JOINs once a further one is known. */
  ghost function JoinsWith(argv: Argv, jp: Parser<Member>, ms: seq<Member>, m: Parse<Member>): Parse<seq<Member>>
    requires Advances(jp, |argv|) && (m.Ok? ==> m.at <= |argv|)
  {
    match m
    case Ok(m, at) => JoinsAt(argv, jp, ms + [m], at)
    case Bad(at) => Bad(at)
    case Stop => Stop
  }

  lemma JoinsStep(argv: Argv, jp: Parser<Member>, ms: seq<Member>, j: nat)
    requires Advances(jp, |argv|) && j < |argv| && argv[j].word.Plus?
    ensures JoinsAt(argv, jp, ms, j) == if j + 1 == |argv| then Stop else JoinsWith(argv, jp, ms, jp(j + 1))
  {
  }

  /** parse_col_type as the grammar has it. */
  ghost predicate IsBody(argv: Argv, rows: nat, body: Parser<Body>) {
    Advances(body, |argv|) && forall i: nat {:trigger BodyAt(argv, rows, i)} :: i < |argv| ==> body(i) == BodyAt(argv, rows, i)
  }

  function AsPlain(r: Parse<Member>): Parse<Body> {
    match r
    case Ok(m, end) => Ok(Plain(m), end)
    case Bad(at) => Bad(at)
    case Stop => Stop
  }

  function AsBody(r: Parse<seq<Member>>): Parse<Body> {
    match r
    case Ok(ms, end) => Ok(Joined(ms), end)
    case Bad(at) => Bad(at)
    case Stop => Stop
  }

  lemma MoreCells(z: Sizes, m: Mem, mem: Mem, o: nat, s: Setters, rows: nat, cs: seq<Col>, c: nat, x: Col, end: nat)
    requires 0 < z.col && ColsIn(z, m, o, Flatten(CellsBy(s, rows), cs), c) && Heap.Same(m, mem, c)
    requires ColsIn(z, mem, c, BodyBy(s, x.name, x.body, rows), end)
    ensures ColsIn(z, mem, o, Flatten(CellsBy(s, rows), cs + [x]), end)
  {
    var cells := Flatten(CellsBy(s, rows), cs);
    assert (cs + [x])[..|cs|] == cs;
    ColsKept(z, m, mem, o, cells, c);
    ColsJoin(z, mem, o, cells, c, BodyBy(s, x.name, x.body, rows), end);
  }

  lemma MoreShares(a: Shared, s: Setters, rows: nat, cs: seq<Col>, x: Col)
    ensures Merge(Merge(a, Fold(ColShares(s, rows), cs)), BodyShare(s, x.body, rows)) == Merge(a, Fold(ColShares(s, rows), cs + [x]))
    ensures ColumnCount(cs + [x]) == ColumnCount(cs) + Cells(x.body)
  {
    assert (cs + [x])[..|cs|] == cs;
    FoldSnoc(ColShares(s, rows), cs, x);
    MergeAssociates(a, Fold(ColShares(s, rows), cs), ColShares(s, rows)(x));
  }

  /** TBL_SPEC from its first column name on. */
  ghost function ColsFrom(argv: Argv, one: Parser<Body>, name: Arg, i: nat): Parse<seq<Col>>
    requires Advances(one, |argv|) && i < |argv|
  {
    match one(i)
    case Ok(b, at) => ColsAt(argv, one, [Col(name, b)], at)
    case Bad(at) => Bad(at)
    case Stop => Stop
  }

  /** The state when the first column of a table begins, with that column not counted. */
  ghost function Uncounted(mem: Mem, database: DbCounter, join: Join, s: Setters): Entry
    requires 1 <= database.columns
  {
    Entry(mem, database.(columns := database.columns - 1), join, s)
  }

  /** Everything in the state that outlives a column. */
  datatype State = State(
    mem: Mem,
    from: nat,
    db: nat,
    tbl: nat,
    col: nat,
    head: Option<nat>,
    last: Option<nat>,
    database: DbCounter,
    generator: GeneratorCounter,
    clean: bool)

  /** What the columns of a table add to the counters. */
  ghost predicate ColsCounted(database: DbCounter, before: DbCounter, s: Setters, rows: nat, cs: seq<Col>) {
    && database.columns == before.columns + ColumnCount(cs)
    && database == before.(columns := database.columns, shared := Merge(before.shared, Fold(ColShares(s, rows), cs)))
  }

  /** The columns of a table have been parsed since `e`, or an error has come. */
  ghost predicate ColsOver(argv: Argv, z: Sizes, st: State, e: Entry, cs: seq<Col>, next: Node, r: Parse<seq<Col>>) {
    && st.from <= |argv| && Heap.Same(e.mem, st.mem, st.tbl + 1) && st.mem[st.tbl].TblCell?
    && match r
       case Ok(done, at) =>
         var t := st.mem[st.tbl].tbl;
         && done == cs && at == st.from && ClosesTable(argv, at) && next == Closing(argv, false, at)
         && st.tbl < st.col && st.col + z.col <= Bound(z, at) && st.col + z.col <= |st.mem| && 0 < z.col
         && ColsIn(z, st.mem, st.tbl + z.tbl, Flatten(CellsBy(e.setters, t.rows), cs), st.col + z.col)
         && ColsCounted(st.database, e.database, e.setters, t.rows, cs)
       case Bad(at) => at == st.from && next == Failed
       case Stop => next == Stopped
  }

  /** The same, and the table is complete but for its link. */
  ghost predicate TblOver(argv: Argv, z: Sizes, st: State, e: Entry, next: Node, r: Parse<seq<Col>>) {
    && st.from <= |argv| && Heap.Same(e.mem, st.mem, st.tbl) && st.tbl < |st.mem| && e.mem[st.tbl].TblCell?
    && match r
       case Ok(cs, at) =>
         var t := e.mem[st.tbl].tbl;
         && at == st.from && ClosesTable(argv, at) && next == Closing(argv, false, at)
         && st.tbl < st.col && st.col + z.col <= Bound(z, at) && st.col + z.col <= |st.mem| && st.mem[st.tbl].TblCell?
         && TblIn(z, st.mem, st.tbl, TblView(t.name, t.rows, Flatten(CellsBy(e.setters, t.rows), cs)), st.col + z.col, st.mem[st.tbl].tbl.next)
         && ColsCounted(st.database, e.database, e.setters, t.rows, cs)
       case Bad(at) => at == st.from && next == Failed
       case Stop => next == Stopped
  }

  /** parse_table_complete, unless an error came first. */
  ghost function Completed(z: Sizes, st: State, next: Node): State
    requires next != Failed && next != Stopped ==> st.tbl < |st.mem| && st.mem[st.tbl].TblCell?
  {
    if next == Failed || next == Stopped then st
    else st.(mem := Put(st.mem, st.tbl, z.tbl, TblCell(st.mem[st.tbl].tbl.(until := st.col + z.col))))
  }

  lemma AfterTbl(argv: Argv, z: Sizes, st: State, e: Entry, cs: seq<Col>, next: Node, r: Parse<seq<Col>>) returns (done: State)
    requires SizesOk(z) && ColsOver(argv, z, st, e, cs, next, r) && st.mem[st.tbl].tbl.from == st.tbl + z.tbl
    ensures done == Completed(z, st, next) && TblOver(argv, z, done, e, next, r)
    ensures next != Failed && next != Stopped ==> st.tbl + z.tbl <= |st.mem|
  {
    SameAt(e.mem, st.mem, st.tbl + 1, st.tbl);
    SameShorter(e.mem, st.mem, st.tbl + 1, st.tbl);
    done := Completed(z, st, next);
    if next != Failed && next != Stopped {
      var first, end := st.tbl + z.tbl, st.col + z.col;
      var cells := Flatten(CellsBy(e.setters, st.mem[st.tbl].tbl.rows), cs);
      TblCompleted(z, st.mem, st.tbl, first, cells, end);
      ColsOrder(z, st.mem, first, cells, end);
    }
  }

  /** The bodies of a table, for every row count. */
  ghost predicate AreBodies(argv: Argv, body: BodyParser) {
    BodiesAdvance(body, |argv|) && forall rows: nat {:trigger body(rows)} :: IsBody(argv, rows, body(rows))
  }

  /** TBL_SPEC as the grammar has it. */
  ghost predicate IsTbl(argv: Argv, body: BodyParser, tp: Parser<Tbl>)
    requires BodiesAdvance(body, |argv|)
  {
    Advances(tp, |argv|) && forall i: nat {:trigger TblAt(argv, body, i)} :: i < |argv| ==> tp(i) == TblAt(argv, body, i)
  }

  lemma KeptByTbl(z: Sizes, m: Mem, before: Mem, after: Mem, db: nat, first: nat, o: nat, end: nat, ts: seq<TblView>)
    requires SizesOk(z) && db < first <= o < end && Heap.Same(m, before, db + 1) && o < |before| && before[o].TblCell?
    requires Heap.Same(Linked(z, before, o), after, end) && TblsIn(z, Linked(z, before, o), first, ts, end, Some(end))
    ensures Heap.Same(m, after, db + 1) && TblsIn(z, after, first, ts, end, Some(end))
  {
    TblsKept(z, Linked(z, before, o), after, first, ts, end, Some(end));
    SameShorter(Linked(z, before, o), after, end, db + 1);
    SameThrough(m, before, Linked(z, before, o), db + 1);
    SameThrough(m, Linked(z, before, o), after, db + 1);
  }

  lemma NextIsBegun(argv: Argv, z: Sizes, before: State, st: State, m: Mem, vs: seq<TblView>, counted: DbCounter,
                    h: Heading, first: nat)
    requires SizesOk(z) && before.col + z.col <= Bound(z, before.from) && before.from + 5 == st.from < |argv|
    requires before.database == counted && first == st.db + z.db && first <= st.tbl == before.col + z.col
    requires TblBegun(z, st, h) && Heap.Same(m, st.mem, st.db + 1)
    requires TblsIn(z, st.mem, first, vs, st.tbl, Some(st.tbl))
    requires st.database == NextTable(counted, h.rows).(columns := counted.columns + 1)
    ensures NextBegun(argv, z, st, m, vs, counted, h)
  {
    RoomForTbl(z, |argv|, before.from, before.col + z.col);
  }

  lemma RoomToEnter(z: Sizes, n: nat, st: State, vs: seq<TblView>, counted: DbCounter)
    requires SizesOk(z) && Bound(z, n) <= |st.mem| && st.from < n && TblsGathered(z, st, vs, counted)
    ensures st.db + z.db <= st.tbl < st.mem[st.tbl].tbl.until && st.tbl + z.tbl <= |st.mem|
    ensures st.from + 1 < n ==> st.mem[st.tbl].tbl.until + z.tbl <= |st.mem|
    ensures st.from + 4 < n ==> st.mem[st.tbl].tbl.until + z.tbl + z.col <= |st.mem|
  {
    RoomForTbl(z, n, st.from, st.col + z.col);
    TblsLinked(z, st, vs, counted, st.db + z.db, st.col + z.col);
  }

  lemma AfterEnter(argv: Argv, z: Sizes, before: State, st: State, m: Mem, vs: seq<TblView>, counted: DbCounter, h: Heading)
    requires SizesOk(z) && TblsGathered(z, before, vs, counted) && Heap.Same(m, before.mem, before.db + 1)
    requires before.from + 5 == st.from < |argv| && before.db == st.db && st.tbl == before.mem[before.tbl].tbl.until
    requires TblBegun(z, st, h) && Heap.Same(Linked(z, before.mem, before.tbl), st.mem, st.tbl)
    requires st.database == NextTable(before.database, h.rows).(columns := before.database.columns + 1)
    ensures NextBegun(argv, z, st, m, vs, counted, h)
  {
    var first := st.db + z.db;
    assert st.tbl == before.col + z.col;
    TblsLinked(z, before, vs, counted, first, st.tbl);
    KeptByTbl(z, m, before.mem, st.mem, st.db, first, before.tbl, st.tbl, vs);
    NextIsBegun(argv, z, before, st, m, vs, counted, h, first);
  }

  // ---------- tables as values ----------

  /** TBL_NAME, ROW_COUNT and COL_NAME of the table whose flag stands at `i`, up to COL_TYPE. */
  datatype Heading = Heading(name: Arg, rows: nat, col: Arg)

  ghost function Head(argv: Argv, i: nat): (h: Parse<Heading>)
    requires i < |argv|
    ensures h.Ok? ==> h.at == i + 5 < |argv|
  {
    if i + 1 == |argv| then Stop
    else if !argv[i + 1].name then Bad(i + 1)
    else if i + 2 == |argv| then Stop
    else if RowCount(argv[i + 2].unsigned).None? then Bad(i + 2)
    else if i + 3 == |argv| then Stop
    else if !F.Matches(argv[i + 3].word, F.C, F.Column) then Bad(i + 3)
    else if i + 4 == |argv| then Stop
    else if !argv[i + 4].name then Bad(i + 4)
    else if i + 5 == |argv| then Stop
    else Ok(Heading(argv[i + 1].text, RowCount(argv[i + 2].unsigned).value, argv[i + 4].text), i + 5)
  }

  ghost function AsTbl(h: Heading, r: Parse<seq<Col>>): Parse<Tbl> {
    match r
    case Ok(cs, at) => Ok(Tbl(h.name, h.rows, cs), at)
    case Bad(at) => Bad(at)
    case Stop => Stop
  }

  lemma TblStep(argv: Argv, body: BodyParser, i: nat)
    requires BodiesAdvance(body, |argv|) && i < |argv|
    ensures TblAt(argv, body, i) == match Head(argv, i)
                                    case Ok(h, at) => AsTbl(h, ColsFrom(argv, body(h.rows), h.col, at))
                                    case Bad(at) => Bad(at)
                                    case Stop => Stop
  {
  }

  /** A table and its first column are in place up to COL_TYPE. */
  ghost predicate TblBegun(z: Sizes, st: State, h: Heading) {
    && 0 < z.tbl && 0 < z.col && st.col == st.tbl + z.tbl && st.col + z.col <= |st.mem|
    && st.mem[st.tbl].TblCell? && st.mem[st.tbl].tbl.(until := 0, next := None) == TblSpec(h.name, h.rows, st.col, 0, None)
    && st.mem[st.col].ColCell? && st.mem[st.col].col.name == Some(h.col)
  }

  // ---------- the tables of a database ----------

  function View(s: Setters, t: Tbl): TblView {
    TblView(t.name, t.rows, Flatten(CellsBy(s, t.rows), t.cols))
  }

  function Views(s: Setters, ts: seq<Tbl>): (views: seq<TblView>)
    ensures |views| == |ts|
  {
    if ts == [] then [] else Views(s, ts[..|ts| - 1]) + [View(s, ts[|ts| - 1])]
  }

  /** The TblSpecs and counters of the tables so far, the last still to be linked. */
  ghost predicate TblsGathered(z: Sizes, st: State, vs: seq<TblView>, counted: DbCounter) {
    && vs != [] && st.tbl < st.col && st.col + z.col <= |st.mem| && st.col + z.col <= Bound(z, st.from)
    && st.mem[st.tbl].TblCell? && st.database == counted
    && TblIn(z, st.mem, st.tbl, vs[|vs| - 1], st.col + z.col, st.mem[st.tbl].tbl.next)
    && TblsIn(z, st.mem, st.db + z.db, vs[..|vs| - 1], st.tbl, Some(st.tbl))
  }

  /** The last table, or an error. */
  ghost predicate TblsOver(argv: Argv, z: Sizes, st: State, s: Setters, ts: seq<Tbl>, next: Node, r: Parse<seq<Tbl>>) {
    match r
    case Ok(done, at) =>
      done == ts && at == st.from && ClosesDatabase(argv, at) && next == Closing(argv, false, at) &&
        TblsGathered(z, st, Views(s, ts), CountTbls(s, ts))
    case Bad(at) => at == st.from && next == Failed
    case Stop => next == Stopped
  }

  /** Parsing the tables of a database whose result will be `r`; `m` is the memory once its DbSpec
      was in place. */
  ghost predicate InTbls(argv: Argv, z: Sizes, st: State, m: Mem, s: Setters, tp: Parser<Tbl>, ts: seq<Tbl>, next: Node,
                         r: Parse<seq<Tbl>>)
    requires Advances(tp, |argv|)
  {
    && st.from <= |argv| && Heap.Same(m, st.mem, st.db + 1)
    && if next.NextTbl? then
         st.from < |argv| && F.Is(argv[st.from].word, F.T, F.Table) && TblsAt(argv, tp, ts, st.from) == r &&
           TblsGathered(z, st, Views(s, ts), CountTbls(s, ts))
       else TblsOver(argv, z, st, s, ts, next, r)
  }

  /** Room for a table behind the current one, if the arguments allow. */
  lemma RoomForTbl(z: Sizes, n: nat, f: nat, top: nat)
    requires SizesOk(z) && top <= Bound(z, f) && f < n
    ensures f + 1 < n ==> top + z.tbl <= Bound(z, n)
    ensures f + 4 < n ==> top + z.tbl + z.col <= Bound(z, n)
    ensures top + z.tbl + z.col <= Bound(z, f + 6)
  {
    assert Bound(z, f + 4) == Bound(z, f) + 2 * z.col;
    BoundMonotone(z, f + 4, f + 6);
    if f + 1 < n {
      BoundMonotone(z, f + 2, n);
    }
    if f + 4 < n {
      BoundMonotone(z, f + 4, n);
    }
  }

  /** The link to the table that begins at the end of the last one. */
  lemma TblsLinked(z: Sizes, st: State, vs: seq<TblView>, counted: DbCounter, first: nat, end: nat)
    requires SizesOk(z) && TblsGathered(z, st, vs, counted) && first == st.db + z.db && end == st.col + z.col
    ensures st.mem[st.tbl].tbl.until == end && first <= st.tbl < end
    ensures TblsIn(z, Linked(z, st.mem, st.tbl), first, vs, end, Some(end))
  {
    var n := |vs| - 1;
    TblChanged(z, st.mem, st.tbl, vs[n], end, st.mem[st.tbl].tbl.next, Some(end));
    TblsKept(z, st.mem, Linked(z, st.mem, st.tbl), first, vs[..n], st.tbl, Some(st.tbl));
  }

  /** A further table has begun behind some. */
  ghost predicate NextBegun(argv: Argv, z: Sizes, st: State, m: Mem, vs: seq<TblView>, counted: DbCounter, h: Heading) {
    && TblBegun(z, st, h) && Heap.Same(m, st.mem, st.db + 1) && st.db + z.db <= st.tbl
    && st.from < |argv| && st.col + z.col <= Bound(z, st.from + 1)
    && TblsIn(z, st.mem, st.db + z.db, vs, st.tbl, Some(st.tbl))
    && 1 <= st.database.columns && st.database.(columns := st.database.columns - 1) == NextTable(counted, h.rows)
  }

  /** What follows once the columns of a further table are known. */
  ghost function TblsWith(argv: Argv, tp: Parser<Tbl>, ts: seq<Tbl>, t: Parse<Tbl>): Parse<seq<Tbl>>
    requires Advances(tp, |argv|) && (t.Ok? ==> t.at <= |argv|)
  {
    match t
    case Ok(t, at) => TblsAt(argv, tp, ts + [t], at)
    case Bad(at) => Bad(at)
    case Stop => Stop
  }

  lemma TblsStep(argv: Argv, body: BodyParser, tp: Parser<Tbl>, ts: seq<Tbl>, i: nat)
    requires BodiesAdvance(body, |argv|) && IsTbl(argv, body, tp) && i < |argv|
    ensures tp(i) == match Head(argv, i)
                     case Ok(h, at) => AsTbl(h, ColsFrom(argv, body(h.rows), h.col, at))
                     case Bad(at) => Bad(at)
                     case Stop => Stop
    ensures F.Is(argv[i].word, F.T, F.Table) ==> TblsAt(argv, tp, ts, i) == TblsWith(argv, tp, ts, tp(i))
  {
    TblStep(argv, body, i);
  }

  lemma MoreTblCount(s: Setters, ts: seq<Tbl>, h: Heading, cs: seq<Col>, before: DbCounter, after: DbCounter)
    requires before == NextTable(CountTbls(s, ts), h.rows) && ColsCounted(after, before, s, h.rows, cs)
    ensures after == CountTbls(s, ts + [Tbl(h.name, h.rows, cs)])
  {
    assert (ts + [Tbl(h.name, h.rows, cs)])[..|ts|] == ts;
  }

  lemma GatherTbl(z: Sizes, st: State, before: Mem, vs: seq<TblView>, v: TblView, all: seq<TblView>, first: nat, end: nat)
    requires SizesOk(z) && st.tbl < st.col && end == st.col + z.col && end <= |st.mem| && end <= Bound(z, st.from)
    requires st.mem[st.tbl].TblCell? && Heap.Same(before, st.mem, st.tbl) && first == st.db + z.db && all == vs + [v]
    requires TblIn(z, st.mem, st.tbl, v, end, st.mem[st.tbl].tbl.next) && TblsIn(z, before, first, vs, st.tbl, Some(st.tbl))
    ensures TblsGathered(z, st, all, st.database)
  {
    assert all[..|vs|] == vs;
    TblsKept(z, before, st.mem, first, vs, st.tbl, Some(st.tbl));
  }

  lemma GatherMore(z: Sizes, st: State, e: Entry, ts: seq<Tbl>, h: Heading, cs: seq<Col>, v: TblView, first: nat,
                   end: nat, more: seq<Tbl>)
    requires SizesOk(z) && st.tbl < st.col && end == st.col + z.col && end <= |st.mem| && end <= Bound(z, st.from)
    requires st.mem[st.tbl].TblCell? && Heap.Same(e.mem, st.mem, st.tbl) && first == st.db + z.db
    requires v == View(e.setters, Tbl(h.name, h.rows, cs)) && more == ts + [Tbl(h.name, h.rows, cs)]
    requires TblIn(z, st.mem, st.tbl, v, end, st.mem[st.tbl].tbl.next)
    requires TblsIn(z, e.mem, first, Views(e.setters, ts), st.tbl, Some(st.tbl))
    requires e.database == NextTable(CountTbls(e.setters, ts), h.rows) &&
             ColsCounted(st.database, e.database, e.setters, h.rows, cs)
    ensures TblsGathered(z, st, Views(e.setters, more), CountTbls(e.setters, more))
  {
    assert more[..|ts|] == ts;
    MoreTblCount(e.setters, ts, h, cs, e.database, st.database);
    GatherTbl(z, st, e.mem, Views(e.setters, ts), v, Views(e.setters, more), first, end);
  }

  lemma TblsGoOn(argv: Argv, z: Sizes, st: State, m: Mem, s: Setters, tp: Parser<Tbl>, ts: seq<Tbl>)
    requires Advances(tp, |argv|) && ClosesTable(argv, st.from) && Heap.Same(m, st.mem, st.db + 1) &&
             TblsGathered(z, st, Views(s, ts), CountTbls(s, ts))
    ensures InTbls(argv, z, st, m, s, tp, ts, Closing(argv, false, st.from), TblsAt(argv, tp, ts, st.from))
  {
  }

  lemma AfterGoodTbl(argv: Argv, z: Sizes, st: State, e: Entry, m: Mem, tp: Parser<Tbl>, ts: seq<Tbl>, h: Heading,
                     next: Node, cs: seq<Col>,
                     first: nat, end: nat, more: seq<Tbl>)
    requires SizesOk(z) && Advances(tp, |argv|) && Heap.Same(m, st.mem, st.db + 1) && first == st.db + z.db &&
             end == st.col + z.col
    requires TblOver(argv, z, st, e, next, Ok(cs, st.from)) && e.mem[st.tbl].tbl.name == h.name &&
             e.mem[st.tbl].tbl.rows == h.rows
    requires TblsIn(z, e.mem, first, Views(e.setters, ts), st.tbl, Some(st.tbl)) &&
             e.database == NextTable(CountTbls(e.setters, ts), h.rows)
    requires more == ts + [Tbl(h.name, h.rows, cs)]
    ensures next == Closing(argv, false, st.from)
    ensures InTbls(argv, z, st, m, e.setters, tp, more, next, TblsAt(argv, tp, more, st.from))
  {
    GatherMore(z, st, e, ts, h, cs, TblView(h.name, h.rows, Flatten(CellsBy(e.setters, h.rows), cs)), first, end, more);
    TblsGoOn(argv, z, st, m, e.setters, tp, more);
  }

  lemma AfterNextTbl(argv: Argv, z: Sizes, st: State, begun: State, e: Entry, m: Mem, s: Setters, tp: Parser<Tbl>,
                     ts: seq<Tbl>, h: Heading,
                     next: Node, r: Parse<seq<Col>>, rs: Parse<seq<Tbl>>) returns (more: seq<Tbl>)
    requires SizesOk(z) && Advances(tp, |argv|) && NextBegun(argv, z, begun, m, Views(s, ts), CountTbls(s, ts), h)
    requires begun.db == st.db && begun.tbl == st.tbl && e == Uncounted(begun.mem, begun.database, e.join, s)
    requires TblOver(argv, z, st, e, next, r) && rs == TblsWith(argv, tp, ts, AsTbl(h, r))
    ensures InTbls(argv, z, st, m, s, tp, more, next, rs)
  {
    assert Heap.Same(m, st.mem, st.db + 1) by {
      SameShorter(begun.mem, st.mem, st.tbl, st.db + 1);
      SameThrough(m, begun.mem, st.mem, st.db + 1);
    }
    if r.Ok? {
      var first, end := begun.db + z.db, st.col + z.col;
      more := ts + [Tbl(h.name, h.rows, r.value)];
      assert rs == TblsAt(argv, tp, more, st.from);
      AfterGoodTbl(argv, z, st, e, m, tp, ts, h, next, r.value, first, end, more);
    } else {
      more := ts;
      AfterBadTbl(argv, z, st, m, s, tp, ts, next, rs);
    }
  }

  lemma AfterBadTbl(argv: Argv, z: Sizes, st: State, m: Mem, s: Setters, tp: Parser<Tbl>, ts: seq<Tbl>, next: Node,
                    rs: Parse<seq<Tbl>>)
    requires Advances(tp, |argv|) && st.from <= |argv| && Heap.Same(m, st.mem, st.db + 1) && !rs.Ok?
    requires next == (if rs.Bad? then Failed else Stopped) && (rs.Bad? ==> rs.at == st.from)
    ensures InTbls(argv, z, st, m, s, tp, ts, next, rs)
  {
  }

  // ---------- databases as values ----------

  /** DB_NAME and the heading of the first table of the database whose flag stands at `i`. */
  ghost function DbHead(argv: Argv, i: nat): (h: Parse<Heading>)
    requires i + DB_SPEC_LENGTH_MIN <= |argv|
  {
    if !argv[i + 1].name then Bad(i + 1)
    else if !F.Matches(argv[i + 2].word, F.T, F.Table) then Bad(i + 2)
    else Head(argv, i + 2)
  }

  ghost function AsDb(name: Arg, r: Parse<seq<Tbl>>): Parse<Db> {
    match r
    case Ok(ts, at) => Ok(Db(name, ts), at)
    case Bad(at) => Bad(at)
    case Stop => Stop
  }

  lemma DbStep(argv: Argv, body: BodyParser, tp: Parser<Tbl>, i: nat) returns (h: Parse<Heading>, r: Parse<Db>)
    requires BodiesAdvance(body, |argv|) && IsTbl(argv, body, tp) && i + DB_SPEC_LENGTH_MIN <= |argv|
    ensures h == DbHead(argv, i) && r == DbAt(argv, tp, i)
    ensures h.Ok? ==> r == AsDb(argv[i + 1].text, TblsWith(argv, tp, [], AsTbl(h.value, ColsFrom(argv, body(h.value.rows), h.value.col, h.at))))
    ensures h.Bad? ==> r == Bad(h.at)
    ensures h.Stop? ==> r == Stop
  {
    h, r := DbHead(argv, i), DbAt(argv, tp, i);
    TblsStep(argv, body, tp, [], i + 2);
    assert tp(i + 2).Ok? ==> [] + [tp(i + 2).value] == [tp(i + 2).value];
  }

  /** The DbSpec at `o` is complete but for its link. */
  ghost predicate DbPlaced(z: Sizes, mem: Mem, o: nat, name: Arg) {
    o < |mem| && mem[o].DbCell? && mem[o].db.(next := None) == DbSpec(name, o + z.db, None)
  }

  /** A DB_SPEC has been parsed, or an error has come; `m` is the memory before it. */
  ghost predicate DbOver(argv: Argv, z: Sizes, st: State, m: Mem, s: Setters, next: Node, r: Parse<Db>) {
    && st.from <= |argv| && Heap.Same(m, st.mem, st.db)
    && match r
       case Ok(d, at) =>
         && at == st.from && ClosesDatabase(argv, at) && next == Closing(argv, false, at) && d.tbls != []
         && DbPlaced(z, st.mem, st.db, d.name) && TblsGathered(z, st, Views(s, d.tbls), CountTbls(s, d.tbls))
       case Bad(at) => at == st.from && next == Failed
       case Stop => next == Stopped
  }

  lemma DbStopped(argv: Argv, z: Sizes, st: State, m: Mem, s: Setters, stop: Node, h: Parse<Heading>, r: Parse<Db>)
    requires st.from <= |argv| && Heap.Same(m, st.mem, st.db) && Headed(h, Some(stop), st.from)
    requires (h.Bad? ==> r == Bad(h.at)) && (h.Stop? ==> r == Stop)
    ensures DbOver(argv, z, st, m, s, stop, r)
  {
  }

  lemma TblsAreOver(argv: Argv, z: Sizes, st: State, m0: Mem, m: Mem, s: Setters, tp: Parser<Tbl>, ts: seq<Tbl>,
                    next: Node, name: Arg, rs: Parse<seq<Tbl>>, r: Parse<Db>)
    requires SizesOk(z) && Advances(tp, |argv|) && InTbls(argv, z, st, m, s, tp, ts, next, rs) && !next.NextTbl? &&
             r == AsDb(name, rs)
    requires Heap.Same(m0, m, st.db) && DbPlaced(z, m, st.db, name)
    ensures DbOver(argv, z, st, m0, s, next, r)
  {
    SameAt(m, st.mem, st.db + 1, st.db);
    SameShorter(m, st.mem, st.db + 1, st.db);
    SameThrough(m0, m, st.mem, st.db);
  }

  lemma RoomForDb(z: Sizes, i: nat, n: nat)
    requires SizesOk(z) && i + DB_SPEC_LENGTH_MIN <= n
    ensures Bound(z, i) + 4 * z.col == Bound(z, i + 8) <= Bound(z, n)
  {
    assert Bound(z, i + 8) == Bound(z, i + 6) + z.col == Bound(z, i + 4) + 2 * z.col == Bound(z, i + 2) + 3 * z.col;
    BoundMonotone(z, i + 8, n);
  }

  /** The first table of a database whose flag stands at `i`. */
  lemma FirstIsBegun(argv: Argv, z: Sizes, st: State, i: nat, h: Heading)
    requires SizesOk(z) && i + DB_SPEC_LENGTH_MIN <= |argv| && st.from == i + 7
    requires TblBegun(z, st, h) && st.tbl == st.db + z.db && st.database == Init(h.rows)
    requires st.db + z.db + z.tbl <= Bound(z, i) + 3 * z.col
    ensures NextBegun(argv, z, st, st.mem, [], NoTables, h)
  {
    assert Bound(z, i + 8) == Bound(z, i + 6) + z.col == Bound(z, i + 4) + 2 * z.col == Bound(z, i + 2) + 3 * z.col;
  }

  // ---------- the valid databases ----------

  function ViewDb(s: Setters, d: Db): DbView {
    DbView(d.name, Views(s, d.tbls))
  }

  function ViewDbs(s: Setters, ds: seq<Db>): (views: seq<DbView>)
    ensures |views| == |ds|
  {
    if ds == [] then [] else ViewDbs(s, ds[..|ds| - 1]) + [ViewDb(s, ds[|ds| - 1])]
  }

  /** The valid databases fill the bytes up to `end`, all linked but for the last. */
  ghost predicate Committed(z: Sizes, st: State, vs: seq<DbView>, end: nat) {
    if vs == [] then end == 0 && st.last == None
    else
      && st.head == Some(0) && st.last.Some? && st.last.value < end <= |st.mem| && st.mem[st.last.value].DbCell?
      && DbIn(z, st.mem, st.last.value, vs[|vs| - 1], end, st.mem[st.last.value].db.next)
      && DbsIn(z, st.mem, 0, vs[..|vs| - 1], st.last.value, Some(st.last.value))
  }

  /** `*(valid.last) = p`. */
  ghost function SetLast(z: Sizes, st: State, p: Option<nat>): State
    requires st.last.Some? ==> st.last.value < |st.mem| && st.mem[st.last.value].DbCell?
  {
    if st.last.None? then st.(head := p)
    else st.(mem := Put(st.mem, st.last.value, z.db, DbCell(st.mem[st.last.value].db.(next := p))))
  }

  /** The last table has no further one, and the database counts. */
  ghost function Ended(z: Sizes, st: State): State
    requires st.tbl < |st.mem| && st.mem[st.tbl].TblCell?
  {
    st.(mem := Put(st.mem, st.tbl, z.tbl, TblCell(st.mem[st.tbl].tbl.(next := None))), generator := Update(st.generator, st.database))
  }

  lemma CommittedKept(z: Sizes, st: State, st': State, vs: seq<DbView>, end: nat)
    requires SizesOk(z) && Committed(z, st, vs, end) && Heap.Same(st.mem, st'.mem, end)
    requires st.head == st'.head && st.last == st'.last
    ensures Committed(z, st', vs, end)
  {
    if vs != [] {
      var p, n := st.last.value, |vs| - 1;
      DbKept(z, st.mem, st'.mem, p, vs[n], end, st.mem[p].db.next);
      DbsOrder(z, st.mem, 0, vs[..n], p, Some(p));
      DbsKept(z, st.mem, st'.mem, 0, vs[..n], p, Some(p));
    }
  }

  /** The last of the tables of a database has no further one. */
  lemma TblsEnded(z: Sizes, st: State, vs: seq<TblView>, counted: DbCounter, first: nat, end: nat)
    requires SizesOk(z) && TblsGathered(z, st, vs, counted) && first == st.db + z.db && end == st.col + z.col
    ensures first <= st.tbl && st.tbl + z.tbl <= end && TblsIn(z, Ended(z, st).mem, first, vs, end, None)
  {
    var n := |vs| - 1;
    TblsOrder(z, st.mem, first, vs[..n], st.tbl, Some(st.tbl));
    ColsOrder(z, st.mem, st.tbl + z.tbl, vs[n].cols, end);
    TblChanged(z, st.mem, st.tbl, vs[n], end, st.mem[st.tbl].tbl.next, None);
    TblsKept(z, st.mem, Ended(z, st).mem, first, vs[..n], st.tbl, Some(st.tbl));
  }

  /** The valid databases once the last is linked to the next, or to nothing. */
  lemma LastLinked(z: Sizes, st: State, vs: seq<DbView>, end: nat, p: Option<nat>)
    requires SizesOk(z) && Committed(z, st, vs, end)
    ensures st.last.Some? ==> st.last.value < |st.mem| && st.mem[st.last.value].DbCell?
    ensures var after := SetLast(z, st, p); DbsIn(z, after.mem, 0, vs, end, p) && after.head == if vs == [] then p else Some(0)
  {
    if vs != [] {
      var q := st.last.value;
      DbsRelinked(z, st.mem, 0, q, vs, end, st.mem[q].db.next, p);
    }
  }

  /** A write below a database leaves it alone. */
  lemma DbUntouched(z: Sizes, m: Mem, mem: Mem, o: nat, name: Arg, ts: seq<TblView>, end: nat)
    requires SizesOk(z) && DbPlaced(z, m, o, name) && TblsIn(z, m, o + z.db, ts, end, None) && SameBetween(m, mem, o, end)
    ensures o < end && mem[o].DbCell? && DbIn(z, mem, o, DbView(name, ts), end, mem[o].db.next)
  {
    TblsOrder(z, m, o + z.db, ts, end, None);
    TblsKept(z, m, mem, o + z.db, ts, end, None);
  }

  lemma LastBelow(z: Sizes, st: State, vs: seq<DbView>, end: nat)
    requires SizesOk(z) && Committed(z, st, vs, end)
    ensures st.last.Some? ==> st.last.value + z.db <= end && st.mem[st.last.value].DbCell?
  {
    if vs != [] {
      TblsOrder(z, st.mem, st.last.value + z.db, vs[|vs| - 1].tbls, end, None);
    }
  }

  /** The database at `o` is complete but for its link. */
  ghost predicate Joinable(z: Sizes, st: State, o: nat, first: nat, vs: seq<DbView>, name: Arg, ts: seq<TblView>, end: nat) {
    && SizesOk(z) && Committed(z, st, vs, o) && DbPlaced(z, st.mem, o, name) && end <= |st.mem|
    && first == o + z.db && TblsIn(z, st.mem, first, ts, end, None)
    && (st.last.Some? ==> st.last.value + z.db <= o && st.mem[st.last.value].DbCell?)
  }

  /** A database that has just been parsed joins the valid ones: first its tables end, */
  lemma DbEnded(z: Sizes, st: State, vs: seq<DbView>, name: Arg, ts: seq<TblView>, counted: DbCounter, first: nat, end: nat)
    requires first == st.db + z.db && end == st.col + z.col && SizesOk(z)
    requires Committed(z, st, vs, st.db) && DbPlaced(z, st.mem, st.db, name) && TblsGathered(z, st, ts, counted)
    ensures Joinable(z, Ended(z, st), st.db, first, vs, name, ts, end)
    ensures st.db < st.tbl && st.tbl + z.tbl <= |st.mem|
    ensures st.last.Some? ==> st.last.value + z.db <= st.db && st.mem[st.last.value].DbCell?
  {
    LastBelow(z, st, vs, st.db);
    TblsEnded(z, st, ts, counted, first, end);
    assert Committed(z, Ended(z, st), vs, st.db) by {
      CommittedKept(z, st, Ended(z, st), vs, st.db);
    }
  }

  /** then it is linked. */
  lemma DbJoins(z: Sizes, st: State, o: nat, first: nat, vs: seq<DbView>, name: Arg, ts: seq<TblView>, end: nat)
    returns (after: State)
    requires Joinable(z, st, o, first, vs, name, ts, end)
    ensures after == SetLast(z, st, Some(o)).(last := Some(o)) && Committed(z, after, vs + [DbView(name, ts)], end)
  {
    after := SetLast(z, st, Some(o)).(last := Some(o));
    assert SameBetween(st.mem, after.mem, o, end);
    DbUntouched(z, st.mem, after.mem, o, name, ts, end);
    assert after.head == Some(0) && DbsIn(z, after.mem, 0, vs, o, Some(o)) by {
      LastLinked(z, st, vs, o, Some(o));
    }
    CommittedWith(z, after, vs, DbView(name, ts), end);
  }

  lemma Valid(z: Sizes, st: State, vs: seq<DbView>, name: Arg, ts: seq<TblView>, counted: DbCounter, end: nat)
    returns (done: State)
    requires end == st.col + z.col && SizesOk(z) && Committed(z, st, vs, st.db) && DbPlaced(z, st.mem, st.db, name) &&
             TblsGathered(z, st, ts, counted)
    ensures st.tbl + z.tbl <= |st.mem|
    ensures st.last.Some? ==> st.last.value < st.tbl && st.last.value + z.db <= |st.mem| && st.mem[st.last.value].DbCell?
    ensures done == SetLast(z, Ended(z, st), Some(st.db)).(last := Some(st.db))
    ensures Committed(z, done, vs + [DbView(name, ts)], end) && done.generator == Update(st.generator, counted)
  {
    var first := st.db + z.db;
    DbEnded(z, st, vs, name, ts, counted, first, end);
    done := DbJoins(z, Ended(z, st), st.db, first, vs, name, ts, end);
  }

  lemma CommittedWith(z: Sizes, st: State, vs: seq<DbView>, v: DbView, end: nat)
    requires st.head == Some(0) && st.last.Some? && st.last.value < end <= |st.mem| && st.mem[st.last.value].DbCell?
    requires DbIn(z, st.mem, st.last.value, v, end, st.mem[st.last.value].db.next)
    requires DbsIn(z, st.mem, 0, vs, st.last.value, Some(st.last.value))
    ensures Committed(z, st, vs + [v], end)
  {
    assert (vs + [v])[..|vs|] == vs;
  }

  // ---------- a whole run ----------

  /** DB_SPEC as the grammar has it. */
  ghost predicate IsDb(argv: Argv, tp: Parser<Tbl>, dp: Parser<Db>)
    requires Advances(tp, |argv|)
  {
    && Advances(dp, |argv|)
    && (forall i: nat {:trigger DbAt(argv, tp, i)} :: i + DB_SPEC_LENGTH_MIN <= |argv| ==> dp(i) == DbAt(argv, tp, i))
    && (forall i: nat {:trigger dp(i)} :: i + DB_SPEC_LENGTH_MIN > |argv| ==> dp(i) == Stop)
  }

  /** Room for a database at the cursor. */
  ghost predicate Roomy(z: Sizes, st: State) {
    st.db + z.db + z.tbl <= Bound(z, st.from) + 3 * z.col
  }

  /** Where parsing goes on after an error at `at`. */
  function Resume(argv: Argv, at: nat): nat {
    NextDatabase(argv, at + 1)
  }

  /** From this position on the run has this outcome. */
  ghost predicate Leads(argv: Argv, dp: Parser<Db>, ds: seq<Db>, clean: bool, i: nat, out: Outcome)
    requires Advances(dp, |argv|)
  {
    DbsAt(argv, dp, ds, clean, i) == out
  }

  /** The valid databases, as the reader and the counters see them. */
  datatype Accepted = Accepted(dbs: seq<Db>, views: seq<DbView>, counter: GeneratorCounter)

  /** Parsing the databases whose outcome will be `out`: the accepted ones fill the bytes to `end`. */
  ghost predicate Running(argv: Argv, z: Sizes, st: State, dp: Parser<Db>, acc: Accepted, end: nat, next: Node, out: Outcome)
    requires Advances(dp, |argv|)
  {
    && st.from <= |argv| && Committed(z, st, acc.views, end) && st.generator == acc.counter
    && if next.NextDb? then end == st.db && Roomy(z, st) && Leads(argv, dp, acc.dbs, st.clean, st.from, out)
       else if next.Failed? then end == st.db && Roomy(z, st) && Leads(argv, dp, acc.dbs, false, Resume(argv, st.from), out)
       else out == Outcome(acc.dbs, next.Complete? && st.clean)
  }

  /** One more. */
  ghost function Accept(s: Setters, acc: Accepted, d: Db): Accepted {
    Accepted(acc.dbs + [d], acc.views + [ViewDb(s, d)], Update(acc.counter, CountDb(s, d)))
  }

  /** The measure of the loop over the databases; a failure may leave the cursor at the end, so
      that the search for the next database starts beyond it. */
  function Rank(argv: Argv, next: Node, from: nat): int {
    if next.NextDb? then (if from < |argv| then 2 * (|argv| - from) + 2 else 0)
    else if next.Failed? then 2 * (|argv| - from) + 1
    else -1
  }

  lemma RoomierLater(z: Sizes, db: nat, from: nat, later: nat)
    requires SizesOk(z) && db + z.db + z.tbl <= Bound(z, from) + 3 * z.col && from <= later
    ensures db + z.db + z.tbl <= Bound(z, later) + 3 * z.col
  {
    BoundMonotone(z, from, later);
  }

  lemma DbsStep(argv: Argv, tp: Parser<Tbl>, dp: Parser<Db>, ds: seq<Db>, clean: bool, i: nat, out: Outcome)
    requires Advances(tp, |argv|) && IsDb(argv, tp, dp) && i + DB_SPEC_LENGTH_MIN <= |argv| && Leads(argv, dp, ds, clean, i, out)
    ensures dp(i) == DbAt(argv, tp, i)
    ensures GoesOn(argv, dp, ds, clean, dp(i), out)
  {
  }

  /** What a run makes of the parse of its next DB_SPEC. */
  ghost predicate GoesOn(argv: Argv, dp: Parser<Db>, ds: seq<Db>, clean: bool, r: Parse<Db>, out: Outcome)
    requires Advances(dp, |argv|)
  {
    if r.Ok? then Goes(argv, dp, ds + [r.value], clean, r.at, out)
    else if r.Bad? then Leads(argv, dp, ds, false, Resume(argv, r.at), out)
    else out == Outcome(ds, false)
  }

  lemma ShortDb(argv: Argv, dp: Parser<Db>, ds: seq<Db>, clean: bool, i: nat, out: Outcome)
    requires Advances(dp, |argv|) && (i < |argv| ==> dp(i) == Stop) && Leads(argv, dp, ds, clean, i, out)
    ensures out == Outcome(ds, false)
  {
  }

  ghost predicate Goes(argv: Argv, dp: Parser<Db>, ds: seq<Db>, clean: bool, at: nat, out: Outcome)
    requires Advances(dp, |argv|)
  {
    if at == |argv| then out == Outcome(ds, clean) else Leads(argv, dp, ds, clean, at, out)
  }

  /** A failed DB_SPEC leaves everything valid as it was. */
  lemma AfterBadDb(argv: Argv, z: Sizes, before: State, st: State, dp: Parser<Db>, acc: Accepted, next: Node,
                   r: Parse<Db>, out: Outcome)
    requires SizesOk(z) && Advances(dp, |argv|) && before.from < |argv|
    requires Running(argv, z, before, dp, acc, before.db, NextDb, out)
    requires st.from <= |argv| && Heap.Same(before.mem, st.mem, st.db) && !r.Ok? && Forward(r, before.from, |argv|)
    requires next == (if r.Bad? then Failed else Stopped) && (r.Bad? ==> st.from == r.at)
    requires st.db == before.db && st.head == before.head && st.last == before.last && st.generator == before.generator
    requires GoesOn(argv, dp, acc.dbs, before.clean, r, out)
    ensures Running(argv, z, st, dp, acc, st.db, next, out)
  {
    CommittedKept(z, before, st, acc.views, st.db);
    if r.Bad? {
      RoomierLater(z, st.db, before.from, st.from);
    }
  }

  /** The database just parsed is among the valid ones; `end` is where it ends. */
  lemma AfterGoodDb(argv: Argv, z: Sizes, st: State, dp: Parser<Db>, acc: Accepted, end: nat, next: Node, out: Outcome)
    returns (moved: State)
    requires SizesOk(z) && Advances(dp, |argv|) && st.from <= |argv| && next == Closing(argv, false, st.from) &&
             end <= Bound(z, st.from) && ClosesDatabase(argv, st.from)
    requires Committed(z, st, acc.views, end) && st.generator == acc.counter
    requires Goes(argv, dp, acc.dbs, st.clean, st.from, out)
    ensures moved == if next == NextDb then st.(db := end) else st
    ensures Running(argv, z, moved, dp, acc, end, next, out)
  {
    moved := if next == NextDb then st.(db := end) else st;
  }

  /** The views and the counter are those of the accepted databases. */
  ghost predicate Loaded(s: Setters, acc: Accepted) {
    acc.views == ViewDbs(s, acc.dbs) && acc.counter == CountDbs(s, acc.dbs)
  }

  /** A parsed database is accepted. */
  ghost predicate Grown(s: Setters, acc: Accepted, more: Accepted, r: Parse<Db>) {
    more == if r.Ok? then Accept(s, acc, r.value) else acc
  }

  lemma LoadedMore(s: Setters, acc: Accepted, more: Accepted, r: Parse<Db>)
    requires Loaded(s, acc) && Grown(s, acc, more, r)
    ensures Loaded(s, more)
  {
    assert r.Ok? ==> (acc.dbs + [r.value])[..|acc.dbs|] == acc.dbs;
  }

  /** The list of valid databases has been terminated. */
  ghost predicate Terminated(z: Sizes, st: State, acc: Accepted, end: nat, out: Outcome) {
    && DbsIn(z, st.mem, 0, acc.views, end, None) && end <= |st.mem| && HeadOk(st.head, acc.views)
    && st.generator == acc.counter && out == Outcome(acc.dbs, st.clean)
  }

  lemma TerminatedRun(argv: Argv, z: Sizes, st: State, dp: Parser<Db>, acc: Accepted, end: nat, next: Node, out: Outcome)
    returns (done: State)
    requires SizesOk(z) && Advances(dp, |argv|) && Running(argv, z, st, dp, acc, end, next, out) && !next.NextDb? && !next.Failed?
    ensures st.last.Some? ==> st.last.value + z.db <= |st.mem| && st.mem[st.last.value].DbCell?
    ensures done == SetLast(z, st, None).(clean := next.Complete? && st.clean) && Terminated(z, done, acc, end, out)
  {
    LastBelow(z, st, acc.views, end);
    LastLinked(z, st, acc.views, end, None);
    done := SetLast(z, st, None).(clean := next.Complete? && st.clean);
  }

  ghost function Linked(z: Sizes, mem: Mem, o: nat): Mem
    requires o < |mem| && mem[o].TblCell?
  {
    Put(mem, o, z.tbl, TblCell(mem[o].tbl.(next := Some(mem[o].tbl.until))))
  }

  /** JOIN_SPEC as a list of members. */
  ghost function JoinsFrom(argv: Argv, jp: Parser<Member>, j: nat): (r: Parse<seq<Member>>)
    requires Advances(jp, |argv|) && j < |argv|
    ensures JoinSpec(argv, jp, j) == AsBody(r)
  {
    assert jp(j).Ok? ==> [] + [jp(j).value] == [jp(j).value];
    JoinsWith(argv, jp, [], jp(j))
  }

  /** The state in which parsing a column type or JOIN begins, and what it is held against. */
  datatype Entry = Entry(mem: Mem, database: DbCounter, join: Join, setters: Setters)

  /** `here` is the state when the body of the column after `cs` begins, its ColSpec at `c`. */
  ghost predicate Pending(z: Sizes, tbl: nat, rows: nat, e: Entry, here: Entry, c: nat, cs: seq<Col>) {
    && here.setters == e.setters && Heap.Same(e.mem, here.mem, tbl + 1) && 0 < z.tbl
    && ColsIn(z, here.mem, tbl + z.tbl, Flatten(CellsBy(e.setters, rows), cs), c)
    && here.database.columns == e.database.columns + ColumnCount(cs) + 1
    && here.database == e.database.(columns := here.database.columns,
                                    shared := Merge(e.database.shared, Fold(ColShares(e.setters, rows), cs)))
  }

  class GenerateParser {
    const argv: Argv
    const z: Sizes
    const arena: array<Cell>
    ghost var mem: Mem

    var from: nat
    var db: nat
    var tbl: nat
    var col: nat
    var head: Option<nat>
    var last: Option<nat>      // whose `next` comes next; None for `head`
    var join: Join
    var base: nat
    var baseName: Arg
    var database: DbCounter
    var generator: GeneratorCounter
    var clean: bool

    /** generate_dispatch: the allocation, and the state before the first argument; `head` and the
        memory hold whatever was there. */
    constructor (argv: Argv, z: Sizes)
      requires SizesOk(z) && |argv| >= DB_SPEC_LENGTH_MIN
      ensures fresh(arena) && arena.Length == AllocSize(z, |argv|) && Synced()
      ensures this.argv == argv && this.z == z && from == 0 && db == 0 && last == None && generator == NoDatabases && clean
    {
      this.argv, this.z := argv, z;
      arena := new Cell[AllocSize(z, |argv|)];
      from, db, tbl, col, last := 0, 0, 0, 0, None;
      generator, clean := NoDatabases, true;
      database, join, base, baseName := Init(0), Join(0, false), 0, [];
      var junk: Option<nat> := *;
      head := junk;
      new;
      mem := arena[..];
    }

    ghost predicate Synced() reads this, arena {
      arena[..] == mem
    }

    /** A write of `size` bytes at `o`, inside the allocation. */
    method Store(o: nat, cell: Cell, size: nat)
      requires Synced() && 0 < size && o + size <= |mem|
      modifies arena, this`mem
      ensures Synced() && mem == Put(old(mem), o, size, cell)
    {
      arena[o] := cell;
      for k := o + 1 to o + size
        invariant mem == old(mem) && arena[o] == cell
        invariant forall i: nat :: i < arena.Length && i != o ==> arena[i] == if o < i < k then Free else old(mem)[i]
      {
        arena[k] := Free;
      }
      mem := Put(mem, o, size, cell);
      assert arena[..] == mem;
    }

    /** A column is being parsed. */
    ghost predicate InCol() reads this {
      && 0 < z.col
      && from <= |argv| && tbl < col && col + z.col <= |mem|
      && mem[tbl].TblCell? && mem[col].ColCell?
    }

    ghost function Rows(): nat
      requires tbl < |mem| && mem[tbl].TblCell?
      reads this
    {
      mem[tbl].tbl.rows
    }

    /** At most the bytes of the current ColSpec changed since the entry. */
    ghost predicate OnlyCol(e: Entry) reads this {
      && |mem| == |e.mem| && col < |mem| && mem[col].ColCell?
      && forall o: nat {:trigger mem[o]} :: o < |mem| && (o < col || col + z.col <= o) ==> mem[o] == e.mem[o]
    }

    /** Parsing one column type or JOIN, nothing of it set yet. */
    ghost predicate Inside(e: Entry, inJoin: bool) reads this {
      && InCol() && OnlyCol(e) && AreStandard(e.setters)
      && database == e.database && join == e.join
      && e.mem[col].ColCell? && mem[col].col.name == e.mem[col].col.name && (!inJoin ==> mem[col].col.name.Some?)
    }

    /** The current ColSpec, the counters and the JOIN are as the setter of `m` leaves them. */
    ghost predicate WasSet(e: Entry, m: Member, inJoin: bool)
      requires InCol() && OnlyCol(e) && e.mem[col].ColCell?
      reads this
    {
      && database == e.database.(shared := Merge(e.database.shared, e.setters.asks(m, Rows(), inJoin)))
      && if inJoin then
           && Seen(mem[col].col) == e.setters.member(baseName, m) && mem[col].col.name == None
           && join == Join(e.join.length + e.setters.added(baseName, m, Rows()), e.join.varies || Varies(m.kind))
         else
           e.mem[col].col.name.Some? && mem[col].col.name.Some? &&
             mem[col].col == e.setters.plain(e.mem[col].col.name.value, m, Rows())
    }

    /** The state and the next node are as the grammar says of one column type or JOIN. */
    ghost predicate Follow(e: Entry, next: Node, r: Parse<Member>, inJoin: bool) reads this {
      && InCol() && OnlyCol(e) && e.mem[col].ColCell?
      && match r
         case Ok(m, at) => from == at && Follows(argv, inJoin, at) && next == Closing(argv, inJoin, at) && WasSet(e, m, inJoin)
         case Bad(at) => from == at && next == Failed
         case Stop => next == Stopped
    }

    // ---------- setters ----------

    /** set_col_spec or set_join; a setter that is not for groups leaves the GrpSpec unread. */
    method SetSpec(inJoin: bool, grouped: bool, ghost e: Entry, ghost m: Member)
      requires Inside(e, inJoin) && mem[col].col.kind == m.kind
      requires m.grp == if grouped then mem[col].col.grp else None
      requires Synced()
      modifies this`mem, this`join, this`database, arena
      ensures Synced()
      ensures InCol() && OnlyCol(e) && WasSet(e, m, inJoin)
    {
      var c := arena[col].col;
      if !grouped {
        c := c.(grp := None);
      }
      var rows := arena[tbl].tbl.rows;
      if inJoin {
        join := Add(join, c, rows, baseName);
        Store(col, ColCell(SetJoin(c, baseName)), z.col);
        assert Seen(mem[col].col) == MemberSpec(baseName, m);
      } else {
        Store(col, ColCell(SetColumn(c, rows)), z.col);
        assert mem[col].col == PlainSpec(c.name.value, m, rows);
      }
      database := database.(shared := Merge(database.shared, Asks(c.kind, c.grp, rows, inJoin)));
      assert e.setters.asks(m, rows, inJoin) == Asks(m.kind, m.grp, rows, inJoin);
    }

    // ---------- the end of a column or JOIN ----------

    /** parse_column_complete and parse_join_complete, once the cursor has moved on. */
    method Close(inJoin: bool, handler: Handler, ghost e: Entry, ghost m: Member) returns (next: Node)
      requires Inside(e, inJoin) && mem[col].col.kind == m.kind && (m.grp.Some? ==> mem[col].col.grp == m.grp)
      requires m.grp.Some? <==> handler.RefuseSecond?
      requires handler.RefuseFixed? ==> IsFixedData(m.kind)
      requires handler.GrpSpecs? ==> !IsFixedData(m.kind)
      requires Synced()
      modifies this`from, this`mem, this`join, this`database, arena
      ensures Synced()
      ensures var r := if m.grp.Some? then AfterPart(argv, inJoin, m, old(from))
                       else Tail(argv, old(Rows()), inJoin, m.kind, old(from));
              Follow(e, next, r, inJoin)
      decreases if handler.GrpSpecs? then 2 else 0
    {
      if from < |argv| && F.Is(argv[from].word, F.G, F.Group) {
        match handler {
          case GrpSpecs => next := ParseGrpSpec(inJoin, e, m.kind);
          case RefuseFixed => next := Failed;
          case RefuseSecond =>
            from := from + 1;
            next := Failed;
        }
      } else if Follows(argv, inJoin, from) {
        SetSpec(inJoin, handler.RefuseSecond?, e, m);
        next := Closing(argv, inJoin, from);
      } else {
        next := Failed;
      }
    }

    /** parse_grp_spec and parse_join_grp_spec up to the count. */
    method ParseGrpSpec(inJoin: bool, ghost e: Entry, ghost k: Kind) returns (next: Node)
      requires Inside(e, inJoin) && mem[col].col.kind == k && from < |argv|
      requires Synced()
      modifies this`from, this`mem, this`join, this`database, arena
      ensures Synced()
      ensures Follow(e, next, GrpSpec(argv, old(Rows()), inJoin, k, old(from) + 1), inJoin)
      decreases 1, 1
    {
      from := from + 1;
      if from == |argv| {
        return Stopped;
      }
      var count := GrpCount(argv[from].unsigned, arena[tbl].tbl.rows);
      if count.None? {
        return Failed;
      }
      from := from + 1;
      next := ParsePartType(inJoin, count.value, e, k);
    }

    /** The rest of them; without a PART_TYPE the partition is even. */
    method ParsePartType(inJoin: bool, count: nat, ghost e: Entry, ghost k: Kind) returns (next: Node)
      requires Inside(e, inJoin) && mem[col].col.kind == k
      requires Synced()
      modifies this`from, this`mem, this`join, this`database, arena
      ensures Synced()
      ensures Follow(e, next, PartType(argv, inJoin, k, count, old(from)), inJoin)
      decreases 1, 0
    {
      var part := Even;
      if from < |argv| && F.Is(argv[from].word, F.E, F.Even) {
        from := from + 1;
      } else if from < |argv| && F.Is(argv[from].word, F.L, F.Linear) {
        part := Linear;
        from := from + 1;
      }
      ghost var m := Member(k, Some(Grp(count, part)));
      assert PartType(argv, inJoin, k, count, old(from)) == AfterPart(argv, inJoin, m, from);
      Store(col, ColCell(arena[col].col.(grp := Some(Grp(count, part)))), z.col);
      next := Close(inJoin, RefuseSecond, e, m);
    }

    /** parse_column_complete and parse_join_complete with what the qualifier stored. */
    method Finish(inJoin: bool, k: Kind, ghost e: Entry, ghost tail: Ending) returns (next: Node)
      requires Inside(e, inJoin) && IsTail(argv, Rows(), inJoin, tail)
      requires Synced()
      modifies this`from, this`mem, this`join, this`database, arena
      ensures Synced()
      ensures Follow(e, next, tail(k, old(from)), inJoin)
    {
      Store(col, ColCell(arena[col].col.(kind := k)), z.col);
      assert Tail(argv, Rows(), inJoin, k, from) == tail(k, from);
      next := Close(inJoin, if IsFixedData(k) then RefuseFixed else GrpSpecs, e, Member(k, None));
    }

    // ---------- integers ----------

    /** parse_integer_fixed and its three twins. */
    method ParseIntegerFixed(inJoin: bool, sign: Sign, ghost e: Entry, ghost tail: Ending) returns (next: Node)
      requires Inside(e, inJoin) && IsTail(argv, Rows(), inJoin, tail) && from < |argv|
      requires Synced()
      modifies this`from, this`mem, this`join, this`database, arena
      ensures Synced()
      ensures Follow(e, next, Then(tail, IntegerFixed(argv, sign, old(from) + 1)), inJoin)
    {
      from := from + 1;
      if from == |argv| {
        return Stopped;
      }
      var n := Number(sign, argv[from]);
      if n.None? {
        return Failed;
      }
      from := from + 1;
      next := Finish(inJoin, IntFixed(sign, n.value), e, tail);
    }

    /** parse_integer_random_from and its twins. */
    method ParseRandomFrom(inJoin: bool, sign: Sign, ghost e: Entry, ghost tail: Ending) returns (next: Node)
      requires Inside(e, inJoin) && IsTail(argv, Rows(), inJoin, tail) && from < |argv|
      requires Synced()
      modifies this`from, this`mem, this`join, this`database, arena
      ensures Synced()
      ensures Follow(e, next, Then(tail, RandomFrom(argv, sign, old(from) + 1)), inJoin)
    {
      from := from + 1;
      if from == |argv| {
        return Stopped;
      }
      var n := Number(sign, argv[from]);
      if n.None? {
        return Failed;
      }
      from := from + 1;
      next := Finish(inJoin, IntFrom(sign, n.value), e, tail);
    }

    /** parse_integer_random_upto and its twins. */
    method ParseRandomUpto(inJoin: bool, sign: Sign, ghost e: Entry, ghost tail: Ending) returns (next: Node)
      requires Inside(e, inJoin) && IsTail(argv, Rows(), inJoin, tail) && from < |argv|
      requires Synced()
      modifies this`from, this`mem, this`join, this`database, arena
      ensures Synced()
      ensures Follow(e, next, Then(tail, RandomUpto(argv, sign, old(from) + 1)), inJoin)
    {
      from := from + 1;
      if from == |argv| {
        return Stopped;
      }
      var n := Number(sign, argv[from]);
      if n.None? {
        return Failed;
      }
      from := from + 1;
      next := Finish(inJoin, IntUpto(sign, n.value), e, tail);
    }

    /** parse_integer_random_range and its twins. */
    method ParseRandomRange(inJoin: bool, sign: Sign, ghost e: Entry, ghost tail: Ending) returns (next: Node)
      requires Inside(e, inJoin) && IsTail(argv, Rows(), inJoin, tail) && from < |argv|
      requires Synced()
      modifies this`from, this`mem, this`join, this`database, arena
      ensures Synced()
      ensures Follow(e, next, Then(tail, RandomRange(argv, sign, old(from) + 1)), inJoin)
    {
      from := from + 1;
      if from == |argv| {
        return Stopped;
      }
      var low := Number(sign, argv[from]);
      if low.None? {
        return Failed;
      }
      from := from + 1;
      if from == |argv| {
        return Stopped;
      }
      var high := Number(sign, argv[from]);
      if high.None? {
        return Failed;
      }
      if high.value < low.value {
        return Stopped;
      }
      from := from + 1;
      next := Finish(inJoin, IntRange(sign, low.value, high.value), e, tail);
    }

    /** parse_integer_random and its twins. */
    method ParseRandom(inJoin: bool, sign: Sign, ghost e: Entry, ghost tail: Ending) returns (next: Node)
      requires Inside(e, inJoin) && IsTail(argv, Rows(), inJoin, tail) && from < |argv|
      requires Synced()
      modifies this`from, this`mem, this`join, this`database, arena
      ensures Synced()
      ensures Follow(e, next, Then(tail, RandomQualifier(argv, sign, old(from) + 1)), inJoin)
    {
      from := from + 1;
      if from == |argv| {
        next := Finish(inJoin, IntRandom(sign), e, tail);
      } else if F.Is(argv[from].word, F.F, F.From) {
        next := ParseRandomFrom(inJoin, sign, e, tail);
      } else if F.Is(argv[from].word, F.U, F.Upto) {
        next := ParseRandomUpto(inJoin, sign, e, tail);
      } else if F.Is(argv[from].word, F.R, F.Range) {
        next := ParseRandomRange(inJoin, sign, e, tail);
      } else {
        next := Finish(inJoin, IntRandom(sign), e, tail);
      }
    }

    /** parse_integer_qualifier and its twins. */
    method ParseIntegerQualifier(inJoin: bool, sign: Sign, ghost e: Entry, ghost tail: Ending) returns (next: Node)
      requires Inside(e, inJoin) && IsTail(argv, Rows(), inJoin, tail) && from < |argv|
      requires Synced()
      modifies this`from, this`mem, this`join, this`database, arena
      ensures Synced()
      ensures Follow(e, next, Then(tail, IntegerQualifier(argv, sign, old(from) + 1)), inJoin)
    {
      from := from + 1;
      if from == |argv| {
        next := Finish(inJoin, IntDefault(sign), e, tail);
      } else if F.Is(argv[from].word, F.U, F.Unique) {
        from := from + 1;
        next := Finish(inJoin, IntUnique(sign), e, tail);
      } else if F.Is(argv[from].word, F.F, F.Fixed) {
        next := ParseIntegerFixed(inJoin, sign, e, tail);
      } else if F.Is(argv[from].word, F.R, F.Random) {
        next := ParseRandom(inJoin, sign, e, tail);
      } else {
        next := Finish(inJoin, IntDefault(sign), e, tail);
      }
    }

    // ---------- strings, timestamps ----------

    /** parse_string_unique and parse_join_string_unique. */
    method ParseStringUnique(inJoin: bool, ghost e: Entry, ghost tail: Ending) returns (next: Node)
      requires Inside(e, inJoin) && IsTail(argv, Rows(), inJoin, tail) && from < |argv|
      requires Synced()
      modifies this`from, this`mem, this`join, this`database, arena
      ensures Synced()
      ensures Follow(e, next, Then(tail, BaseString(argv, old(from) + 1)), inJoin)
    {
      from := from + 1;
      if from == |argv| {
        return Stopped;
      }
      if !argv[from].base {
        return Failed;
      }
      var base := argv[from].text;
      from := from + 1;
      next := Finish(inJoin, StrUnique(base), e, tail);
    }

    /** parse_string_fixed and parse_join_string_fixed, the cursor on the text. */
    method ParseText(inJoin: bool, ghost e: Entry, ghost tail: Ending) returns (next: Node)
      requires Inside(e, inJoin) && IsTail(argv, Rows(), inJoin, tail) && from < |argv|
      requires Synced()
      modifies this`from, this`mem, this`join, this`database, arena
      ensures Synced()
      ensures Follow(e, next, Then(tail, FixedString(argv, old(from))), inJoin)
    {
      if !argv[from].fixed {
        return Failed;
      }
      var text := argv[from].text;
      from := from + 1;
      next := Finish(inJoin, StrFixed(text), e, tail);
    }

    /** parse_string_hash and parse_join_string_hash. */
    method ParseStringHash(inJoin: bool, ghost e: Entry, ghost tail: Ending) returns (next: Node)
      requires Inside(e, inJoin) && IsTail(argv, Rows(), inJoin, tail) && from < |argv|
      requires Synced()
      modifies this`from, this`mem, this`join, this`database, arena
      ensures Synced()
      ensures Follow(e, next, Then(tail, HashString(argv, old(from) + 1)), inJoin)
    {
      from := from + 1;
      if from == |argv| {
        return Stopped;
      }
      var length := HashLength(argv[from].unsigned);
      if length.None? {
        return Failed;
      }
      from := from + 1;
      next := Finish(inJoin, StrHash(length.value), e, tail);
    }

    /** The qualifiers of a string, `-j` apart. */
    method ParseStringQualifier(inJoin: bool, ghost e: Entry, ghost tail: Ending) returns (next: Node)
      requires Inside(e, inJoin) && IsTail(argv, Rows(), inJoin, tail) && from < |argv|
      requires Synced()
      modifies this`from, this`mem, this`join, this`database, arena
      ensures Synced()
      ensures Follow(e, next, Then(tail, StringQualifier(argv, old(from) + 1)), inJoin)
    {
      from := from + 1;
      if from == |argv| {
        next := Finish(inJoin, StrDefault, e, tail);
      } else if F.Is(argv[from].word, F.U, F.Unique) {
        next := ParseStringUnique(inJoin, e, tail);
      } else if F.Is(argv[from].word, F.F, F.Fixed) {
        from := from + 1;
        if from == |argv| {
          return Stopped;
        }
        next := ParseText(inJoin, e, tail);
      } else if F.Is(argv[from].word, F.H, F.Hash) {
        next := ParseStringHash(inJoin, e, tail);
      } else {
        next := ParseStringWord(inJoin, e, tail);
      }
    }

    /** The qualifiers of a string that take no argument. */
    method ParseStringWord(inJoin: bool, ghost e: Entry, ghost tail: Ending) returns (next: Node)
      requires Inside(e, inJoin) && IsTail(argv, Rows(), inJoin, tail) && from < |argv|
      requires Synced()
      modifies this`from, this`mem, this`join, this`database, arena
      ensures Synced()
      ensures Follow(e, next, Then(tail, StringWord(argv, old(from))), inJoin)
    {
      var k := StrDefault;
      if F.Is(argv[from].word, F.UU, F.Uuid) {
        k := StrUuid;
      } else if F.Is(argv[from].word, F.N1, F.NamesFirst) {
        k := StrNamesFirst;
      } else if F.Is(argv[from].word, F.NL, F.NamesLast) {
        k := StrNamesLast;
      } else if F.Is(argv[from].word, F.NF, F.NamesFull) {
        k := StrNamesFull;
      }
      if !k.StrDefault? {
        from := from + 1;
      }
      next := Finish(inJoin, k, e, tail);
    }

    /** parse_timestamp_qualifier, parse_datetime_qualifier and their twins. */
    method ParseTimeQualifier(inJoin: bool, clock: Clock, ghost e: Entry, ghost tail: Ending) returns (next: Node)
      requires Inside(e, inJoin) && IsTail(argv, Rows(), inJoin, tail) && from < |argv|
      requires Synced()
      modifies this`from, this`mem, this`join, this`database, arena
      ensures Synced()
      ensures Follow(e, next, Then(tail, TimeQualifier(argv, clock, old(from) + 1)), inJoin)
    {
      from := from + 1;
      if from == |argv| {
        next := Finish(inJoin, TimeDefault(clock), e, tail);
      } else if F.Is(argv[from].word, F.F, F.Fixed) {
        from := from + 1;
        next := Finish(inJoin, TimeFixed(clock), e, tail);
      } else if F.Is(argv[from].word, F.U, F.Unique) {
        from := from + 1;
        next := Finish(inJoin, TimeUnique(clock), e, tail);
      } else {
        next := Finish(inJoin, TimeDefault(clock), e, tail);
      }
    }

    /** parse_col_type, and parse_join on a flag. */
    method ParseColType(inJoin: bool, ghost e: Entry, ghost tail: Ending) returns (next: Node)
      requires Inside(e, inJoin) && IsTail(argv, Rows(), inJoin, tail) && from < |argv|
      requires Synced()
      modifies this`from, this`mem, this`join, this`database, arena
      ensures Synced()
      ensures Follow(e, next, Then(tail, KindAt(argv, old(from))), inJoin)
    {
      if F.Is(argv[from].word, F.I, F.Integer) {
        next := ParseIntegerQualifier(inJoin, Signed, e, tail);
      } else if F.Is(argv[from].word, F.U, F.Unsigned) {
        next := ParseIntegerQualifier(inJoin, Unsigned, e, tail);
      } else if F.Is(argv[from].word, F.S, F.String) {
        next := ParseStringQualifier(inJoin, e, tail);
      } else if F.Is(argv[from].word, F.TS, F.Timestamp) {
        next := ParseTimeQualifier(inJoin, Timestamp, e, tail);
      } else if F.Is(argv[from].word, F.DT, F.Datetime) {
        next := ParseTimeQualifier(inJoin, Datetime, e, tail);
      } else {
        next := Failed;
      }
    }

    // ---------- JOIN_SPEC ----------

    /** parse_join: filler text unless it starts with a dash. */
    method ParseJoin(ghost e: Entry, ghost jp: Parser<Member>) returns (next: Node)
      requires Inside(e, true) && IsJoin(argv, Rows(), jp) && from < |argv|
      requires Synced()
      modifies this`from, this`mem, this`join, this`database, arena
      ensures Synced()
      ensures Follow(e, next, jp(old(from)), true)
    {
      ghost var tail := TailOf(argv, Rows(), true);
      assert jp(from) == JoinAt(argv, Rows(), from);
      if !F.StartsWithDash(argv[from].word) {
        next := ParseText(true, e, tail);
      } else {
        next := ParseColType(true, e, tail);
      }
    }

    /** After some JOINs: their ColSpecs, the accumulator and the counters. */
    ghost predicate Accumulated(e: Entry, c: nat, ms: seq<Member>)
      requires InCol()
      reads this
    {
      && ms != [] && base == c && join == TotalBy(e.setters, baseName, Rows(), ms)
      && ColsIn(z, mem, c, MembersBy(e.setters, baseName, ms), col + z.col) && col + z.col <= Bound(z, from)
      && e.database.columns + |ms| == database.columns + 1
      && database == e.database.(columns := database.columns, shared := Merge(e.database.shared, Fold(JoinAsks(e.setters, Rows()), ms)))
    }

    /** One more member, set since `here`. */
    lemma Extend(e: Entry, here: Entry, c: nat, ms: seq<Member>, m: Member)
      requires InCol() && OnlyCol(here) && here.mem[col].ColCell? && WasSet(here, m, true) && here.setters == e.setters &&
               base == c
      requires ColsIn(z, here.mem, c, MembersBy(e.setters, baseName, ms), col) && col + z.col <= Bound(z, from)
      requires here.join == TotalBy(e.setters, baseName, Rows(), ms) && e.database.columns + |ms| == here.database.columns
      requires here.database == e.database.(columns := here.database.columns,
                                            shared := Merge(e.database.shared, Fold(JoinAsks(e.setters, Rows()), ms)))
      ensures Accumulated(e, c, ms + [m])
    {
      var s := e.setters;
      assert (ms + [m])[..|ms|] == ms;
      assert here.mem[..col] == mem[..col];
      ColsKept(z, here.mem, mem, c, MembersBy(s, baseName, ms), col);
      ColsAppend(z, mem, c, MembersBy(s, baseName, ms), col, s.member(baseName, m));
      FoldSnoc(JoinAsks(s, Rows()), ms, m);
      MergeAssociates(e.database.shared, Fold(JoinAsks(s, Rows()), ms), JoinAsks(s, Rows())(m));
    }

    /** Parsing a JOIN_SPEC whose result will be `r`. */
    ghost predicate Joining(e: Entry, c: nat, ms: seq<Member>, next: Node, r: Parse<seq<Member>>, jp: Parser<Member>)
      requires Advances(jp, |argv|)
      reads this
    {
      && InCol() && Heap.Same(e.mem, mem, c) && tbl < c <= col
      && if next.NextJoin? then from < |argv| && argv[from].word.Plus? && JoinsAt(argv, jp, ms, from) == r &&
         Accumulated(e, c, ms)
         else if next.Failed? then r == Bad(from)
         else if next.Stopped? then r == Stop
         else Follows(argv, false, from) && next == Closing(argv, false, from) && r == Ok(ms, from) && Accumulated(e, c, ms)
    }

    /** The static part. */
    ghost predicate Roomy(s: Setters, jp: Parser<Member>)
      requires tbl < |mem| && mem[tbl].TblCell?
      reads this
    {
      SizesOk(z) && AreStandard(s) && IsJoin(argv, Rows(), jp) && Bound(z, |argv|) <= |mem|
    }

    /** Moves on to the next ColSpec, which holds whatever was there. */
    method NextCell(ghost s: Setters, ghost c: nat, ghost cs: seq<ColSpec>) returns (ghost here: Entry)
      requires InCol() && SizesOk(z) && AreStandard(s) && col + 2 * z.col <= |mem| && tbl < c <= col
      requires ColsIn(z, mem, c, cs, col + z.col)
      requires Synced()
      modifies this`mem, this`col, this`database, arena
      ensures Synced()
      ensures here == Entry(mem, database, join, s) && Inside(here, true) && col == old(col) + z.col
      ensures database == old(database).(columns := old(database).columns + 1)
      ensures ColsIn(z, mem, c, cs, col) && Heap.Same(old(mem), mem, col)
    {
      col := col + z.col;
      var junk: ColSpec := *;
      Store(col, ColCell(junk), z.col);
      assert Heap.Same(old(mem), mem, col);
      ColsKept(z, old(mem), mem, c, cs, col);
      database := database.(columns := database.columns + 1);
      here := Entry(mem, database, join, s);
    }

    /** Parsing the member after `ms` begins at `here`. */
    ghost predicate Between(e: Entry, here: Entry, c: nat, ms: seq<Member>) reads this {
      && InCol() && here.mem == mem && here.setters == e.setters && base == c && tbl < c <= col
      && here.database == database && here.join == join && Heap.Same(e.mem, mem, c)
      && ColsIn(z, mem, c, MembersBy(e.setters, baseName, ms), col) && col + z.col <= Bound(z, from + 1)
      && join == TotalBy(e.setters, baseName, Rows(), ms) && e.database.columns + |ms| == database.columns
      && database == e.database.(columns := database.columns, shared := Merge(e.database.shared, Fold(JoinAsks(e.setters, Rows()), ms)))
    }

    /** The first half of parse_next_join. */
    method MoveToJoin(ghost e: Entry, ghost c: nat, ghost ms: seq<Member>) returns (more: bool, ghost here: Entry)
      requires InCol() && SizesOk(z) && AreStandard(e.setters) && Bound(z, |argv|) <= |mem| && from < |argv|
      requires Heap.Same(e.mem, mem, c) && tbl < c <= col && Accumulated(e, c, ms)
      requires Synced()
      modifies this`from, this`mem, this`col, this`database, arena
      ensures Synced()
      ensures InCol() && from == old(from) + 1 && more == (from < |argv|) && mem[tbl] == old(mem)[tbl] && |mem| == |old(mem)|
      ensures Heap.Same(e.mem, mem, c) && c <= col
      ensures more ==> Inside(here, true) && Between(e, here, c, ms)
    {
      from := from + 1;
      here := e;
      if from == |argv| {
        return false, here;
      }
      more := true;
      BoundMonotone(z, from + 1, |argv|);
      ghost var cells := MembersBy(e.setters, baseName, ms);
      here := NextCell(e.setters, c, cells);
      SameShorter(old(mem), mem, col, c);
      SameAt(old(mem), mem, col, tbl);
    }

    /** The member that began at `here` and cursor `i` has been parsed. */
    lemma AfterJoin(e: Entry, here: Entry, c: nat, ms: seq<Member>, i: nat, next: Node, r: Parse<seq<Member>>, jp: Parser<Member>)
      returns (more: seq<Member>)
      requires Advances(jp, |argv|) && i < |argv| && Follow(here, next, jp(i), true)
      requires here.setters == e.setters && base == c && tbl < c <= col && Heap.Same(e.mem, here.mem, c) && SizesOk(z)
      requires ColsIn(z, here.mem, c, MembersBy(e.setters, baseName, ms), col) && col + z.col <= Bound(z, i + 1)
      requires here.join == TotalBy(e.setters, baseName, Rows(), ms) && e.database.columns + |ms| == here.database.columns
      requires here.database == e.database.(columns := here.database.columns,
                                            shared := Merge(e.database.shared, Fold(JoinAsks(e.setters, Rows()), ms)))
      requires r == JoinsWith(argv, jp, ms, jp(i))
      ensures Joining(e, c, more, next, r, jp)
    {
      more := ms;
      assert Heap.Same(here.mem, mem, c);
      if jp(i).Ok? {
        more := ms + [jp(i).value];
        BoundMonotone(z, i + 1, from);
        Extend(e, here, c, ms, jp(i).value);
      }
    }

    /** parse_next_join. */
    method ParseNextJoin(ghost e: Entry, ghost c: nat, ghost ms: seq<Member>, ghost r: Parse<seq<Member>>,
                         ghost jp: Parser<Member>)
      returns (next: Node, ghost more: seq<Member>)
      requires tbl < |mem| && mem[tbl].TblCell? && Roomy(e.setters, jp) && Joining(e, c, ms, NextJoin, r, jp)
      requires Synced()
      modifies this`from, this`mem, this`join, this`database, this`col, arena
      ensures Synced()
      ensures tbl < |mem| && mem[tbl] == old(mem)[tbl] && |mem| == |old(mem)|
      ensures Joining(e, c, more, next, r, jp) && (next.NextJoin? ==> old(from) < from)
    {
      JoinsStep(argv, jp, ms, from);
      var some, here := MoveToJoin(e, c, ms);
      if !some {
        return Stopped, ms;
      }
      ghost var i := from;
      next := ParseJoin(here, jp);
      more := AfterJoin(e, here, c, ms, i, next, r, jp);
    }

    /** Follows plus signs as long as there are some. */
    method ParseJoins(first: Node, ghost e: Entry, ghost c: nat, ghost start: seq<Member>, ghost r: Parse<seq<Member>>,
                      ghost jp: Parser<Member>)
      returns (next: Node, ghost ms: seq<Member>)
      requires tbl < |mem| && mem[tbl].TblCell? && Roomy(e.setters, jp) && Joining(e, c, start, first, r, jp)
      requires Synced()
      modifies this`from, this`mem, this`join, this`database, this`col, arena
      ensures Synced()
      ensures tbl < |mem| && mem[tbl] == old(mem)[tbl] && Joining(e, c, ms, next, r, jp) && !next.NextJoin?
    {
      next, ms := first, start;
      while next.NextJoin?
        invariant tbl < |mem| && mem[tbl] == old(mem)[tbl] && |mem| == |old(mem)|
        invariant Synced() && Joining(e, c, ms, next, r, jp)
        decreases if next.NextJoin? then 1 + |argv| - from else 0
      {
        next, ms := ParseNextJoin(e, c, ms, r, jp);
      }
    }

    /** A body has been parsed since `e`, its ColSpecs from `c` on; `name` is the name of the column. */
    ghost predicate BodyDone(e: Entry, c: nat, name: Arg, next: Node, r: Parse<Body>) reads this {
      && InCol() && Heap.Same(e.mem, mem, c) && tbl < c <= col
      && if r.Ok? then
           && from == r.at && Follows(argv, false, from) && next == Closing(argv, false, from)
           && ColsIn(z, mem, c, BodyBy(e.setters, name, r.value, Rows()), col + z.col) && col + z.col <= Bound(z, from)
           && e.database.columns + Cells(r.value) == database.columns + 1
           && database == e.database.(columns := database.columns, shared := Merge(e.database.shared, BodyShare(e.setters, r.value, Rows())))
         else if r.Bad? then from == r.at && next == Failed
         else next == Stopped
    }

    /** join_spec_state_close: the type of the whole goes to the first member, and its name comes
        back. */
    method CloseJoin(ghost e: Entry, ghost ms: seq<Member>)
      requires InCol() && tbl < base <= col && Accumulated(e, base, ms)
      requires Synced()
      modifies this`mem, arena
      ensures Synced()
      ensures InCol() && Heap.Same(old(mem), mem, base) && mem[tbl] == old(mem)[tbl]
      ensures ColsIn(z, mem, base, BodyBy(e.setters, baseName, Joined(ms), Rows()), col + z.col)
    {
      NameFirst(z, mem, base, MembersBy(e.setters, baseName, ms), col + z.col, baseName, join);
      Store(base, ColCell(Named(arena[base].col, baseName, join)), z.col);
    }

    /** Closes the JOIN unless an error ended it. */
    method CloseJoins(next: Node, ghost e: Entry, ghost ms: seq<Member>, ghost r: Parse<seq<Member>>, ghost jp: Parser<Member>,
                      ghost rb: Parse<Body>, ghost c: nat, ghost name: Arg)
      requires Advances(jp, |argv|) && Joining(e, base, ms, next, r, jp) && !next.NextJoin?
      requires rb == AsBody(r) && c == base && name == baseName
      requires Synced()
      modifies this`mem, arena
      ensures Synced() && mem[tbl] == old(mem)[tbl]
      ensures BodyDone(e, c, name, next, rb)
    {
      if next != Failed && next != Stopped {
        CloseJoin(e, ms);
        SameThrough(e.mem, old(mem), mem, base);
      }
    }

    /** join_spec_state_init. */
    method InitJoin(ghost e: Entry) returns (ghost here: Entry)
      requires Inside(e, false)
      requires Synced()
      modifies this`join, this`base, this`baseName
      ensures Synced()
      ensures base == col && Some(baseName) == mem[col].col.name && Inside(here, true)
      ensures here == Entry(mem, database, Join(0, false), e.setters)
    {
      join, base, baseName := Join(0, false), col, arena[col].col.name.value;
      here := Entry(mem, database, join, e.setters);
    }

    /** parse_join_spec, the cursor on `-j`. */
    method ParseJoinSpec(ghost e: Entry, ghost name: Arg, ghost jp: Parser<Member>, ghost rb: Parse<Body>) returns (next: Node)
      requires Inside(e, false) && Roomy(e.setters, jp) && from < |argv| && col + z.col <= Bound(z, from)
      requires mem[col].col.name == Some(name) && rb == JoinSpec(argv, jp, from + 1)
      requires Synced()
      modifies this`from, this`mem, this`join, this`database, this`col, this`base, this`baseName, arena
      ensures Synced()
      ensures BodyDone(e, old(col), name, next, rb)
    {
      from := from + 1;
      if from == |argv| {
        return Stopped;
      }
      ghost var c, r := col, JoinsFrom(argv, jp, from);
      ghost var ms;
      BoundMonotone(z, from - 1, from + 1);
      next, ms := ParseFirstJoin(e, r, jp);
      next, ms := ParseJoins(next, e, c, ms, r, jp);
      CloseJoins(next, e, ms, r, jp, rb, c, name);
    }

    /** The first JOIN of a JOIN_SPEC. */
    method ParseFirstJoin(ghost e: Entry, ghost r: Parse<seq<Member>>, ghost jp: Parser<Member>)
      returns (next: Node, ghost ms: seq<Member>)
      requires Inside(e, false) && Roomy(e.setters, jp) && from < |argv| && col + z.col <= Bound(z, from + 1)
      requires r == JoinsFrom(argv, jp, from)
      requires Synced()
      modifies this`from, this`mem, this`join, this`database, this`base, this`baseName, arena
      ensures Synced()
      ensures base == col && Some(baseName) == old(mem)[col].col.name && |mem| == |old(mem)| && mem[tbl] == old(mem)[tbl]
      ensures Joining(e, col, ms, next, r, jp)
    {
      ghost var here := InitJoin(e);
      ghost var i := from;
      next := ParseJoin(here, jp);
      ms := AfterJoin(e, here, col, [], i, next, r, jp);
    }

    // ---------- column bodies ----------

    lemma AfterPlain(e: Entry, name: Arg, next: Node, m: Parse<Member>, r: Parse<Body>, i: nat)
      requires r == AsPlain(m) && Follow(e, next, m, false) && e.mem[col].col.name == Some(name) && tbl < col
      requires Forward(m, i, |argv|) && (m.Ok? ==> i < m.at) && col + z.col <= Bound(z, i + 1)
      ensures BodyDone(e, col, name, next, r)
    {
      if m.Ok? {
        BoundMonotone(z, i + 1, m.at);
        OneCell(z, mem, col, col + z.col, e.setters.plain(name, m.value, Rows()));
      }
    }

    /** parse_col_type on anything but a JOIN_SPEC. */
    method ParsePlain(ghost e: Entry, ghost name: Arg) returns (next: Node)
      requires Inside(e, false) && from < |argv| && col + z.col <= Bound(z, from + 1) && mem[col].col.name == Some(name)
      requires Synced()
      modifies this`from, this`mem, this`join, this`database, arena
      ensures Synced()
      ensures mem[tbl] == old(mem)[tbl]
      ensures BodyDone(e, col, name, next, AsPlain(PlainAt(argv, old(Rows()), old(from))))
    {
      ghost var i := from;
      ghost var tail := TailOf(argv, Rows(), false);
      next := ParseColType(false, e, tail);
      ghost var m := PlainAt(argv, Rows(), i);
      AfterPlain(e, name, next, m, AsPlain(m), i);
    }

    /** parse_col_type. */
    method ParseBody(ghost s: Setters, ghost name: Arg, ghost body: Parser<Body>) returns (next: Node)
      requires InCol() && AreStandard(s) && SizesOk(z) && IsBody(argv, Rows(), body) && Bound(z, |argv|) <= |mem|
      requires from < |argv| && col + z.col <= Bound(z, from + 1) && mem[col].col.name == Some(name)
      requires Synced()
      modifies this`from, this`mem, this`join, this`database, this`col, this`base, this`baseName, arena
      ensures Synced()
      ensures BodyDone(Entry(old(mem), old(database), old(join), s), old(col), name, next, body(old(from)))
      ensures mem[tbl] == old(mem)[tbl]
    {
      ghost var e := Entry(mem, database, join, s);
      ghost var rb := body(from);
      assert rb == BodyAt(argv, Rows(), from);
      if F.Is(argv[from].word, F.S, F.String) && from + 1 < |argv| && F.Is(argv[from + 1].word, F.J, F.Join) {
        ghost var jp := JoinParser(argv, Rows());
        from := from + 1;
        next := ParseJoinSpec(e, name, jp, rb);
      } else {
        next := ParsePlain(e, name);
      }
    }

    // ---------- the columns of a table ----------

    /** The ColSpecs and counters of the columns so far. */
    ghost predicate Gathered(e: Entry, cs: seq<Col>)
      requires InCol()
      reads this
    {
      && cs != [] && ColsIn(z, mem, tbl + z.tbl, Flatten(CellsBy(e.setters, Rows()), cs), col + z.col) &&
         col + z.col <= Bound(z, from)
      && database.columns == e.database.columns + ColumnCount(cs)
      && database == e.database.(columns := database.columns, shared := Merge(e.database.shared, Fold(ColShares(e.setters, Rows()), cs)))
    }

    /** Parsing the columns of a table whose result will be `r`; `e` is the state when its first
        column began, with that column not counted. */
    ghost predicate InCols(e: Entry, cs: seq<Col>, next: Node, r: Parse<seq<Col>>, one: Parser<Body>)
      requires Advances(one, |argv|)
      reads this
    {
      && from <= |argv| && Heap.Same(e.mem, mem, tbl + 1) && 0 < z.col && 0 < z.tbl && mem[tbl].TblCell?
      && if next.NextCol? then InCol() && from < |argv| && F.Is(argv[from].word, F.C, F.Column) &&
         ColsAt(argv, one, cs, from) == r && Gathered(e, cs)
         else if next.Failed? then r == Bad(from)
         else if next.Stopped? then r == Stop
         else InCol() && ClosesTable(argv, from) && next == Closing(argv, false, from) && r == Ok(cs, from) && Gathered(e, cs)
    }

    lemma ExtendCols(e: Entry, here: Entry, c: nat, cs: seq<Col>, next: Node, name: Arg, b: Body)
      requires InCol() && from <= |argv| && BodyDone(here, c, name, next, Ok(b, from)) && here.setters == e.setters
      requires ColsIn(z, here.mem, tbl + z.tbl, Flatten(CellsBy(e.setters, Rows()), cs), c)
      requires here.database.columns == e.database.columns + ColumnCount(cs) + 1
      requires here.database == e.database.(columns := here.database.columns,
                                            shared := Merge(e.database.shared, Fold(ColShares(e.setters, Rows()), cs)))
      ensures Gathered(e, cs + [Col(name, b)])
    {
      MoreCells(z, here.mem, mem, tbl + z.tbl, e.setters, Rows(), cs, c, Col(name, b), col + z.col);
      MoreShares(e.database.shared, e.setters, Rows(), cs, Col(name, b));
    }

    /** The column whose body `b` began at `here` and cursor `i` has been parsed. */
    lemma AfterCol(e: Entry, here: Entry, c: nat, cs: seq<Col>, i: nat, name: Arg, next: Node, b: Parse<Body>,
                   r: Parse<seq<Col>>, one: Parser<Body>)
      returns (more: seq<Col>)
      requires Advances(one, |argv|) && Forward(b, i, |argv|) && (b.Ok? ==> i < b.at)
      requires BodyDone(here, c, name, next, b) && Pending(z, tbl, Rows(), e, here, c, cs)
      requires r == ColsWith(argv, one, cs, name, b)
      ensures InCols(e, more, next, r, one) && (next.NextCol? ==> i < from)
    {
      more := cs;
      SameShorter(here.mem, mem, c, tbl + 1);
      SameThrough(e.mem, here.mem, mem, tbl + 1);
      if b.Ok? {
        more := cs + [Col(name, b.value)];
        ExtendCols(e, here, c, cs, next, name, b.value);
      }
    }

    /** Puts the name of a column where the next ColSpec begins; the rest of it is whatever was there. */
    method PlaceCol(o: nat, name: Arg)
      requires 0 < z.col && tbl < o && o + z.col <= |mem| && mem[tbl].TblCell? && from <= |argv|
      requires Synced()
      modifies this`mem, this`col, arena
      ensures Synced()
      ensures InCol() && col == o && mem[col].col.name == Some(name) && Heap.Same(old(mem), mem, o)
    {
      col := o;
      var junk: ColSpec := *;
      Store(o, ColCell(junk.(name := Some(name))), z.col);
    }

    /** What the methods for columns need to know. */
    ghost predicate Ready(s: Setters, one: Parser<Body>) reads this {
      && tbl < |mem| && mem[tbl].TblCell?
      && SizesOk(z) && AreStandard(s) && IsBody(argv, Rows(), one) && Bound(z, |argv|) <= |mem|
    }

    /** parse_next_col_spec up to COL_TYPE. */
    method MoveToCol() returns (stop: Option<Node>)
      requires InCol() && SizesOk(z) && from < |argv| && (from + 1 < |argv| ==> col + 2 * z.col <= |mem|)
      requires Synced()
      modifies this`from, this`mem, this`col, this`database, arena
      ensures Synced() && from <= |argv|
      ensures Heap.Same(old(mem), mem, old(col) + z.col)
      ensures Headed(ColHead(argv, old(from)), stop, from)
      ensures stop.None? ==> InCol() && col == old(col) + z.col
      ensures stop.None? ==> mem[col].col.name == Some(ColHead(argv, old(from)).value)
      ensures stop.None? ==> database == old(database).(columns := old(database).columns + 1)
    {
      from := from + 1;
      if from == |argv| {
        return Some(Stopped);
      }
      if !argv[from].name {
        return Some(Failed);
      }
      PlaceCol(col + z.col, argv[from].text);
      from := from + 1;
      if from == |argv| {
        return Some(Stopped);
      }
      database := database.(columns := database.columns + 1);
      return None;
    }

    /** The name of a column is in place, after the columns `cs`. */
    ghost predicate ColBegun(e: Entry, name: Arg, cs: seq<Col>) reads this {
      && InCol() && Heap.Same(e.mem, mem, tbl + 1)
      && from < |argv| && col + z.col <= Bound(z, from + 1) && mem[col].col.name == Some(name)
      && ColsIn(z, mem, tbl + z.tbl, Flatten(CellsBy(e.setters, Rows()), cs), col)
      && database.columns == e.database.columns + ColumnCount(cs) + 1
      && database == e.database.(columns := database.columns,
                                 shared := Merge(e.database.shared, Fold(ColShares(e.setters, Rows()), cs)))
    }

    lemma ColIsPending(e: Entry, name: Arg, cs: seq<Col>)
      requires ColBegun(e, name, cs) && 0 < z.tbl
      ensures Pending(z, tbl, Rows(), e, Entry(mem, database, join, e.setters), col, cs)
    {
    }

    /** Its body. */
    method ParseColBody(ghost e: Entry, ghost name: Arg, ghost cs: seq<Col>, ghost r: Parse<seq<Col>>, ghost one: Parser<Body>)
      returns (next: Node, ghost more: seq<Col>)
      requires Ready(e.setters, one) && ColBegun(e, name, cs)
      requires r == ColsWith(argv, one, cs, name, one(from))
      requires Synced()
      modifies this`from, this`mem, this`join, this`database, this`col, this`base, this`baseName, arena
      ensures Synced()
      ensures |mem| == |old(mem)| && mem[tbl] == old(mem)[tbl]
      ensures InCols(e, more, next, r, one) && (next.NextCol? ==> old(from) < from)
    {
      ghost var here := Entry(mem, database, join, e.setters);
      ghost var i, c, b := from, col, one(from);
      ColIsPending(e, name, cs);
      next := ParseBody(e.setters, name, one);
      more := AfterCol(e, here, c, cs, i, name, next, b, r, one);
    }

    /** There is room for a further ColSpec. */
    lemma RoomForCol(e: Entry, cs: seq<Col>)
      requires InCol() && Gathered(e, cs) && from + 1 < |argv| && SizesOk(z) && Bound(z, |argv|) <= |mem|
      ensures tbl + z.tbl <= col + z.col && col + 2 * z.col <= Bound(z, from + 2) <= Bound(z, from + 3) &&
              col + 2 * z.col <= |mem|
    {
      ColsOrder(z, mem, tbl + z.tbl, Flatten(CellsBy(e.setters, Rows()), cs), col + z.col);
      BoundMonotone(z, from + 2, |argv|);
      BoundMonotone(z, from + 2, from + 3);
    }

    /** What was in place before `c` still is. */
    lemma StillThere(e: Entry, m: Mem, cs: seq<Col>, c: nat)
      requires SizesOk(z) && tbl < |mem| && mem[tbl].TblCell? && Heap.Same(m, mem, c) && tbl + z.tbl <= c
      requires Heap.Same(e.mem, m, tbl + 1) && ColsIn(z, m, tbl + z.tbl, Flatten(CellsBy(e.setters, Rows()), cs), c)
      ensures ColsIn(z, mem, tbl + z.tbl, Flatten(CellsBy(e.setters, Rows()), cs), c)
      ensures Heap.Same(e.mem, mem, tbl + 1) && mem[tbl] == m[tbl]
    {
      ColsKept(z, m, mem, tbl + z.tbl, Flatten(CellsBy(e.setters, Rows()), cs), c);
      SameShorter(m, mem, c, tbl + 1);
      SameThrough(e.mem, m, mem, tbl + 1);
      SameAt(m, mem, tbl + 1, tbl);
    }

    /** parse_next_col_spec up to COL_TYPE, in a table. */
    method BeginCol(ghost e: Entry, ghost cs: seq<Col>) returns (stop: Option<Node>)
      requires InCol() && Gathered(e, cs) && Heap.Same(e.mem, mem, tbl + 1) && from < |argv| && SizesOk(z) &&
               Bound(z, |argv|) <= |mem|
      requires Synced()
      modifies this`from, this`mem, this`col, this`database, arena
      ensures Synced() && from <= |argv|
      ensures |mem| == |old(mem)| && mem[tbl] == old(mem)[tbl] && Heap.Same(e.mem, mem, tbl + 1)
      ensures Headed(ColHead(argv, old(from)), stop, from)
      ensures stop.None? ==> ColBegun(e, ColHead(argv, old(from)).value, cs)
    {
      ghost var cells := Flatten(CellsBy(e.setters, Rows()), cs);
      ghost var c := col + z.col;
      ColsOrder(z, mem, tbl + z.tbl, cells, c);
      if from + 1 < |argv| {
        RoomForCol(e, cs);
      }
      stop := MoveToCol();
      SameAt(old(mem), mem, c, tbl);
      StillThere(e, old(mem), cs, c);
    }

    lemma ColsStopped(e: Entry, cs: seq<Col>, stop: Node, h: Parse<Arg>, r: Parse<seq<Col>>, one: Parser<Body>)
      requires Advances(one, |argv|) && from <= |argv| && Heap.Same(e.mem, mem, tbl + 1) && SizesOk(z) && mem[tbl].TblCell?
      requires Headed(h, Some(stop), from) && r == if h.Bad? then Bad(h.at) else Stop
      ensures InCols(e, cs, stop, r, one) && !stop.NextCol?
    {
    }

    /** parse_next_col_spec. */
    method ParseNextCol(ghost e: Entry, ghost cs: seq<Col>, ghost r: Parse<seq<Col>>, ghost one: Parser<Body>)
      returns (next: Node, ghost more: seq<Col>)
      requires Ready(e.setters, one) && InCols(e, cs, NextCol, r, one)
      requires Synced()
      modifies this`from, this`mem, this`join, this`database, this`col, this`base, this`baseName, arena
      ensures Synced()
      ensures |mem| == |old(mem)| && tbl < |mem| && mem[tbl] == old(mem)[tbl]
      ensures InCols(e, more, next, r, one) && (next.NextCol? ==> old(from) < from)
    {
      more := cs;
      ghost var h := ColHead(argv, from);
      ColsStep(argv, one, cs, from);
      var stop := BeginCol(e, cs);
      if stop.Some? {
        ColsStopped(e, cs, stop.value, h, r, one);
        return stop.value, more;
      }
      next, more := ParseColBody(e, h.value, cs, r, one);
    }

    /** Columns as long as column flags follow. */
    method ParseCols(first: Node, ghost e: Entry, ghost start: seq<Col>, ghost r: Parse<seq<Col>>, ghost one: Parser<Body>)
      returns (next: Node, ghost cs: seq<Col>)
      requires Ready(e.setters, one) && InCols(e, start, first, r, one)
      requires Synced()
      modifies this`from, this`mem, this`join, this`database, this`col, this`base, this`baseName, arena
      ensures Synced()
      ensures |mem| == |old(mem)| && tbl < |mem| && mem[tbl] == old(mem)[tbl]
      ensures InCols(e, cs, next, r, one) && !next.NextCol?
    {
      next, cs := first, start;
      while next.NextCol?
        invariant |mem| == |old(mem)| && tbl < |mem| && mem[tbl] == old(mem)[tbl]
        invariant Synced() && InCols(e, cs, next, r, one)
        decreases if next.NextCol? then 1 + |argv| - from else 0
      {
        next, cs := ParseNextCol(e, cs, r, one);
      }
    }

    // ---------- tables ----------

    ghost function Snap(): State reads this {
      State(mem, from, db, tbl, col, head, last, database, generator, clean)
    }

    lemma ColsAreOver(e: Entry, cs: seq<Col>, next: Node, r: Parse<seq<Col>>, one: Parser<Body>)
      requires Advances(one, |argv|) && InCols(e, cs, next, r, one) && !next.NextCol?
      ensures ColsOver(argv, z, Snap(), e, cs, next, r)
    {
    }

    /** The columns of a table once the name of the first is in place. */
    method ParseAllCols(ghost s: Setters, ghost name: Arg, ghost one: Parser<Body>) returns (next: Node, ghost cs: seq<Col>)
      requires Ready(s, one) && 1 <= database.columns && ColBegun(Uncounted(mem, database, join, s), name, [])
      requires Synced()
      modifies this`from, this`mem, this`join, this`database, this`col, this`base, this`baseName, arena
      ensures Synced() && tbl < |mem| == |old(mem)| && mem[tbl] == old(mem)[tbl]
      ensures ColsOver(argv, z, Snap(), Uncounted(old(mem), old(database), old(join), s), cs, next, ColsFrom(argv, one, name, old(from)))
    {
      ghost var e, r := Uncounted(mem, database, join, s), ColsFrom(argv, one, name, from);
      assert forall b: Body :: [] + [Col(name, b)] == [Col(name, b)];
      next, cs := ParseColBody(e, name, [], r, one);
      next, cs := ParseCols(next, e, cs, r, one);
      ColsAreOver(e, cs, next, r, one);
    }

    /** parse_table_complete, unless an error came first. */
    method CompleteTbl(next: Node, ghost done: State)
      requires next != Failed && next != Stopped ==> 0 < z.tbl && tbl + z.tbl <= |mem| && mem[tbl].TblCell?
      requires done == Completed(z, Snap(), next)
      requires Synced()
      modifies this`mem, arena
      ensures Synced()
      ensures Snap() == done
    {
      if next != Failed && next != Stopped {
        Store(tbl, TblCell(arena[tbl].tbl.(until := col + z.col)), z.tbl);
      }
    }

    /** All of a table once the name of its first column is in place. */
    method ParseTblCols(ghost s: Setters, ghost name: Arg, ghost one: Parser<Body>) returns (next: Node, ghost st: State)
      requires Ready(s, one) && 1 <= database.columns && ColBegun(Uncounted(mem, database, join, s), name, [])
      requires mem[tbl].tbl.from == tbl + z.tbl
      requires Synced()
      modifies this`from, this`mem, this`join, this`database, this`col, this`base, this`baseName, arena
      ensures Synced() && st == Snap()
      ensures TblOver(argv, z, st, Uncounted(old(mem), old(database), old(join), s), next, ColsFrom(argv, one, name, old(from)))
    {
      ghost var cs;
      next, cs := ParseAllCols(s, name, one);
      st := AfterTbl(argv, z, Snap(), Uncounted(old(mem), old(database), old(join), s), cs, next, ColsFrom(argv, one, name, old(from)));
      CompleteTbl(next, st);
    }

    /** Puts the name of a table in place; the rest of the TblSpec is whatever was there. */
    method PlaceTbl(o: nat, name: Arg)
      requires 0 < z.tbl && o + z.tbl <= |mem|
      requires Synced()
      modifies this`mem, this`tbl, arena
      ensures Synced() && tbl == o && Heap.Same(old(mem), mem, o) && |mem| == |old(mem)|
      ensures mem[o].TblCell? && mem[o].tbl.name == name
    {
      tbl := o;
      var junk: TblSpec := *;
      Store(o, TblCell(junk.(name := name)), z.tbl);
    }

    /** The first ColSpec of the current table: its name, and the start of the interval. */
    method PlaceFirstCol(name: Arg)
      requires SizesOk(z) && tbl + z.tbl + z.col <= |mem| && mem[tbl].TblCell? && from <= |argv|
      requires Synced()
      modifies this`mem, this`col, arena
      ensures Synced() && Heap.Same(old(mem), mem, tbl)
      ensures TblBegun(z, Snap(), Heading(old(mem)[tbl].tbl.name, old(mem)[tbl].tbl.rows, name))
    {
      PlaceCol(tbl + z.tbl, name);
      SameAt(old(mem), mem, tbl + z.tbl, tbl);
      SameShorter(old(mem), mem, tbl + z.tbl, tbl);
      Store(tbl, TblCell(arena[tbl].tbl.(from := col)), z.tbl);
    }

    /** parse_first_col_spec_safe, up to COL_TYPE, the cursor on ROW_COUNT: no end of the arguments
        is looked for. */
    method BeginFirstCol() returns (stop: Option<Node>)
      requires SizesOk(z) && from + 3 < |argv| && tbl + z.tbl + z.col <= |mem| && mem[tbl].TblCell?
      requires Synced()
      modifies this`from, this`mem, this`col, arena
      ensures Synced() && from <= |argv| && Heap.Same(old(mem), mem, tbl)
      ensures if !F.Matches(argv[old(from) + 1].word, F.C, F.Column) then stop == Some(Failed) && from == old(from) + 1
              else if !argv[old(from) + 2].name then stop == Some(Failed) && from == old(from) + 2
              else stop == None && from == old(from) + 3
      ensures stop.None? ==>
                TblBegun(z, Snap(), Heading(old(mem)[tbl].tbl.name, old(mem)[tbl].tbl.rows, argv[old(from) + 2].text))
    {
      from := from + 1;
      if !F.Matches(argv[from].word, F.C, F.Column) {
        return Some(Failed);
      }
      from := from + 1;
      if !argv[from].name {
        return Some(Failed);
      }
      PlaceFirstCol(argv[from].text);
      from := from + 1;
      return None;
    }

    /** parse_first_tbl_spec, up to COL_TYPE, the cursor on DB_NAME: no end of the arguments is
        looked for. */
    method BeginFirstTbl() returns (stop: Option<Node>)
      requires SizesOk(z) && from + 7 <= |argv| && db + z.db + z.tbl + z.col <= |mem| && mem[db].DbCell?
      requires Synced()
      modifies this`from, this`mem, this`tbl, this`col, this`database, arena
      ensures Synced() && from <= |argv| && Heap.Same(old(mem), mem, db)
      ensures if !F.Matches(argv[old(from) + 1].word, F.T, F.Table) then stop == Some(Failed) && from == old(from) + 1
              else Headed(Head(argv, old(from) + 1), stop, from)
      ensures stop.None? ==> tbl == db + z.db && TblBegun(z, Snap(), Head(argv, old(from) + 1).value)
      ensures stop.None? ==> mem[db] == DbCell(old(mem)[db].db.(tbls := tbl)) && database == Init(mem[tbl].tbl.rows)
    {
      from := from + 1;
      if !F.Matches(argv[from].word, F.T, F.Table) {
        return Some(Failed);
      }
      from := from + 1;
      if !argv[from].name {
        return Some(Failed);
      }
      PlaceTbl(db + z.db, argv[from].text);
      SameAt(old(mem), mem, tbl, db);
      SameShorter(old(mem), mem, tbl, db);
      ghost var m := mem;
      stop := BeginFirstRows(argv[from].text);
      SameThrough(old(mem), m, mem, db);
    }

    /** The rest of it, the cursor on TBL_NAME. */
    method BeginFirstRows(ghost name: Arg) returns (stop: Option<Node>)
      requires SizesOk(z) && from + 5 <= |argv| && tbl == db + z.db && tbl + z.tbl + z.col <= |mem| && mem[db].DbCell?
      requires mem[tbl].TblCell? && mem[tbl].tbl.name == name
      requires Synced()
      modifies this`from, this`mem, this`col, this`database, arena
      ensures Synced() && from <= |argv| && Heap.Same(old(mem), mem, db)
      ensures var rows := RowCount(argv[old(from) + 1].unsigned);
              if rows.None? then stop == Some(Failed) && from == old(from) + 1
              else if !F.Matches(argv[old(from) + 2].word, F.C, F.Column) then stop == Some(Failed) && from == old(from) + 2
              else if !argv[old(from) + 3].name then stop == Some(Failed) && from == old(from) + 3
              else stop == None && from == old(from) + 4 && TblBegun(z, Snap(), Heading(name, rows.value, argv[old(from) + 3].text))
      ensures stop.None? ==> mem[db] == DbCell(old(mem)[db].db.(tbls := tbl)) && database == Init(mem[tbl].tbl.rows)
    {
      from := from + 1;
      var rows := RowCount(argv[from].unsigned);
      if rows.None? {
        return Some(Failed);
      }
      BeginRows(rows.value);
      ghost var m := mem;
      stop := BeginFirstCol();
      SameAt(m, mem, tbl, db);
      SameShorter(m, mem, tbl, db);
      SameThrough(old(mem), m, mem, db);
    }

    /** The part of parse_first_tbl_spec that starts the counters. */
    method BeginRows(rows: nat)
      requires SizesOk(z) && tbl + z.tbl <= |mem| && mem[tbl].TblCell? && tbl == db + z.db && mem[db].DbCell?
      requires Synced()
      modifies this`mem, this`database, arena
      ensures Synced()
      ensures mem == Put(Put(old(mem), tbl, z.tbl, TblCell(old(mem)[tbl].tbl.(rows := rows))), db, z.db, DbCell(old(mem)[db].db.(tbls := tbl)))
      ensures database == Init(rows)
    {
      Store(tbl, TblCell(arena[tbl].tbl.(rows := rows)), z.tbl);
      Store(db, DbCell(arena[db].db.(tbls := tbl)), z.db);
      database := Init(rows);
    }

    /** parse_first_col_spec, up to COL_TYPE, the cursor where a column flag should be. */
    method BeginCheckedCol() returns (stop: Option<Node>)
      requires SizesOk(z) && from < |argv| && tbl + z.tbl <= |mem| && mem[tbl].TblCell?
      requires from + 1 < |argv| ==> tbl + z.tbl + z.col <= |mem|
      requires Synced()
      modifies this`from, this`mem, this`col, this`database, arena
      ensures Synced() && from <= |argv| && Heap.Same(old(mem), mem, tbl)
      ensures stop == if !F.Matches(argv[old(from)].word, F.C, F.Column) then Some(Failed)
                      else if old(from) + 1 == |argv| then Some(Stopped)
                      else if !argv[old(from) + 1].name then Some(Failed)
                      else if old(from) + 2 == |argv| then Some(Stopped) else None
      ensures stop == Some(Failed) ==> from == old(from) + if F.Matches(argv[old(from)].word, F.C, F.Column) then 1 else 0
      ensures stop.None? ==> from == old(from) + 2 && database == old(database).(columns := old(database).columns + 1)
      ensures stop.None? ==>
                TblBegun(z, Snap(), Heading(old(mem)[tbl].tbl.name, old(mem)[tbl].tbl.rows, argv[old(from) + 1].text))
    {
      if !F.Matches(argv[from].word, F.C, F.Column) {
        return Some(Failed);
      }
      from := from + 1;
      if from == |argv| {
        return Some(Stopped);
      }
      if !argv[from].name {
        return Some(Failed);
      }
      PlaceFirstCol(argv[from].text);
      from := from + 1;
      if from == |argv| {
        return Some(Stopped);
      }
      database := database.(columns := database.columns + 1);
      return None;
    }

    /** The link to the next table, which begins where the columns end. */
    method LinkTbl()
      requires 0 < z.tbl && tbl + z.tbl <= |mem| && mem[tbl].TblCell?
      requires Synced()
      modifies this`mem, this`tbl, arena
      ensures Synced()
      ensures tbl == old(mem)[old(tbl)].tbl.until && mem == Linked(z, old(mem), old(tbl))
    {
      var t := arena[tbl].tbl;
      Store(tbl, TblCell(t.(next := Some(t.until))), z.tbl);
      tbl := t.until;
    }

    /** parse_next_tbl_spec from the name on, up to COL_TYPE, the cursor on the name. */
    method BeginNextTbl(ghost i: nat) returns (stop: Option<Node>)
      requires SizesOk(z) && from == i + 1 < |argv| && tbl + z.tbl <= |mem| &&
               (from + 3 < |argv| ==> tbl + z.tbl + z.col <= |mem|)
      requires Synced()
      modifies this`from, this`mem, this`tbl, this`col, this`database, arena
      ensures Synced() && from <= |argv| && tbl == old(tbl) && Heap.Same(old(mem), mem, tbl)
      ensures Headed(Head(argv, i), stop, from)
      ensures stop.None? ==> var h := Head(argv, i).value;
                             TblBegun(z, Snap(), h) &&
                               database == NextTable(old(database), h.rows).(columns := old(database).columns + 1)
    {
      if !argv[from].name {
        return Some(Failed);
      }
      PlaceTbl(tbl, argv[from].text);
      from := from + 1;
      if from == |argv| {
        return Some(Stopped);
      }
      var rows := RowCount(argv[from].unsigned);
      if rows.None? {
        return Some(Failed);
      }
      Store(tbl, TblCell(arena[tbl].tbl.(rows := rows.value)), z.tbl);
      from := from + 1;
      if from == |argv| {
        return Some(Stopped);
      }
      database := NextTable(database, rows.value);
      ghost var m := mem;
      stop := BeginCheckedCol();
      SameThrough(old(mem), m, mem, tbl);
    }

    /** What the methods for tables need to know. */
    ghost predicate Set(s: Setters, body: BodyParser) reads this {
      SizesOk(z) && AreStandard(s) && AreBodies(argv, body) && Bound(z, |argv|) <= |mem|
    }

    lemma ColIsBegun(m: Mem, s: Setters, body: BodyParser, vs: seq<TblView>, counted: DbCounter, h: Heading)
      requires Set(s, body) && NextBegun(argv, z, Snap(), m, vs, counted, h)
      ensures tbl < |mem| && mem[tbl].TblCell? && mem[tbl].tbl.from == tbl + z.tbl
      ensures Ready(s, body(h.rows)) && 1 <= database.columns && ColBegun(Uncounted(mem, database, join, s), h.col, [])
    {
      assert IsBody(argv, h.rows, body(h.rows));
    }

    /** A table from its first COL_TYPE on. */
    method ParseTbl(ghost m: Mem, ghost s: Setters, ghost body: BodyParser, ghost tp: Parser<Tbl>, ghost ts: seq<Tbl>,
                    ghost h: Heading,
                    ghost rs: Parse<seq<Tbl>>)
      returns (next: Node, ghost more: seq<Tbl>)
      requires Set(s, body) && Advances(tp, |argv|) && NextBegun(argv, z, Snap(), m, Views(s, ts), CountTbls(s, ts), h)
      requires rs == TblsWith(argv, tp, ts, AsTbl(h, ColsFrom(argv, body(h.rows), h.col, from)))
      requires Synced()
      modifies this`from, this`mem, this`join, this`database, this`col, this`base, this`baseName, arena
      ensures Synced() && |mem| == |old(mem)|
      ensures InTbls(argv, z, Snap(), m, s, tp, more, next, rs)
      ensures next.NextTbl? ==> old(from) < from
    {
      ghost var begun, e := Snap(), Uncounted(mem, database, join, s);
      ghost var r := ColsFrom(argv, body(h.rows), h.col, from);
      ColIsBegun(m, s, body, Views(s, ts), CountTbls(s, ts), h);
      ghost var st;
      next, st := ParseTblCols(s, h.col, body(h.rows));
      more := AfterNextTbl(argv, z, st, begun, e, m, s, tp, ts, h, next, r, rs);
    }

    /** parse_next_tbl_spec, up to COL_TYPE, the cursor on the table flag. */
    method EnterTbl() returns (stop: Option<Node>)
      requires SizesOk(z) && from < |argv| && tbl + z.tbl <= |mem| && mem[tbl].TblCell? && tbl < mem[tbl].tbl.until
      requires from + 1 < |argv| ==> mem[tbl].tbl.until + z.tbl <= |mem|
      requires from + 4 < |argv| ==> mem[tbl].tbl.until + z.tbl + z.col <= |mem|
      requires Synced()
      modifies this`from, this`mem, this`tbl, this`col, this`database, arena
      ensures Synced() && from <= |argv| && Heap.Same(old(mem), mem, old(tbl))
      ensures Headed(Head(argv, old(from)), stop, from)
      ensures stop.None? ==> tbl == old(mem)[old(tbl)].tbl.until && Heap.Same(Linked(z, old(mem), old(tbl)), mem, tbl)
      ensures stop.None? ==> var h := Head(argv, old(from)).value;
                             TblBegun(z, Snap(), h) &&
                               database == NextTable(old(database), h.rows).(columns := old(database).columns + 1)
    {
      ghost var i := from;
      from := from + 1;
      if from == |argv| {
        return Some(Stopped);
      }
      LinkTbl();
      ghost var linked := mem;
      stop := BeginNextTbl(i);
      SameShorter(linked, mem, tbl, old(tbl));
    }

    /** The same as part of a database. */
    method MoveToTbl(ghost m: Mem, ghost vs: seq<TblView>, ghost counted: DbCounter) returns (stop: Option<Node>)
      requires SizesOk(z) && Bound(z, |argv|) <= |mem| && from < |argv|
      requires Heap.Same(m, mem, db + 1) && TblsGathered(z, Snap(), vs, counted)
      requires Synced()
      modifies this`from, this`mem, this`tbl, this`col, this`database, arena
      ensures Synced() && |mem| == |old(mem)| && from <= |argv| && Heap.Same(m, mem, db + 1)
      ensures Headed(Head(argv, old(from)), stop, from)
      ensures stop.None? ==> NextBegun(argv, z, Snap(), m, vs, counted, Head(argv, old(from)).value)
    {
      ghost var i, begun := from, Snap();
      RoomToEnter(z, |argv|, begun, vs, counted);
      stop := EnterTbl();
      SameShorter(begun.mem, mem, begun.tbl, db + 1);
      SameThrough(m, begun.mem, mem, db + 1);
      if stop.None? {
        AfterEnter(argv, z, begun, Snap(), m, vs, counted, Head(argv, i).value);
      }
    }

    /** parse_next_tbl_spec. */
    method ParseNextTbl(ghost m: Mem, ghost s: Setters, ghost body: BodyParser, ghost tp: Parser<Tbl>,
                        ghost ts: seq<Tbl>, ghost r: Parse<seq<Tbl>>)
      returns (next: Node, ghost more: seq<Tbl>)
      requires Set(s, body) && IsTbl(argv, body, tp) && InTbls(argv, z, Snap(), m, s, tp, ts, NextTbl, r)
      requires Synced()
      modifies this`from, this`mem, this`join, this`database, this`tbl, this`col, this`base, this`baseName, arena
      ensures Synced() && |mem| == |old(mem)|
      ensures InTbls(argv, z, Snap(), m, s, tp, more, next, r) && (next.NextTbl? ==> old(from) < from)
    {
      more := ts;
      TblsStep(argv, body, tp, ts, from);
      ghost var h := Head(argv, from);
      var stop := MoveToTbl(m, Views(s, ts), CountTbls(s, ts));
      if stop.Some? {
        return stop.value, more;
      }
      next, more := ParseTbl(m, s, body, tp, ts, h.value, r);
    }

    /** Tables as long as table flags follow. */
    method ParseTbls(first: Node, ghost m: Mem, ghost s: Setters, ghost body: BodyParser, ghost tp: Parser<Tbl>,
                     ghost start: seq<Tbl>, ghost r: Parse<seq<Tbl>>)
      returns (next: Node, ghost ts: seq<Tbl>)
      requires Set(s, body) && IsTbl(argv, body, tp) && InTbls(argv, z, Snap(), m, s, tp, start, first, r)
      requires Synced()
      modifies this`from, this`mem, this`join, this`database, this`tbl, this`col, this`base, this`baseName, arena
      ensures Synced() && |mem| == |old(mem)|
      ensures InTbls(argv, z, Snap(), m, s, tp, ts, next, r) && !next.NextTbl?
    {
      next, ts := first, start;
      while next.NextTbl?
        invariant Synced() && |mem| == |old(mem)|
        invariant InTbls(argv, z, Snap(), m, s, tp, ts, next, r)
        decreases if next.NextTbl? then 1 + |argv| - from else 0
      {
        next, ts := ParseNextTbl(m, s, body, tp, ts, r);
      }
    }

    // ---------- databases ----------

    /** The first half of parse_first_db_spec and of parse_next_db_spec, the cursor on the database
        flag of at least DB_SPEC_LENGTH_MIN arguments. */
    method BeginDb() returns (stop: Option<Node>)
      requires SizesOk(z) && from + DB_SPEC_LENGTH_MIN <= |argv| && Bound(z, |argv|) <= |mem|
      requires db + z.db + z.tbl <= Bound(z, from) + 3 * z.col
      requires Synced()
      modifies this`from, this`mem, this`tbl, this`col, this`database, arena
      ensures Synced() && |mem| == |old(mem)| && from <= |argv| && Heap.Same(old(mem), mem, db)
      ensures Headed(DbHead(argv, old(from)), stop, from)
      ensures stop.None? ==> DbPlaced(z, mem, db, argv[old(from) + 1].text)
      ensures stop.None? ==> NextBegun(argv, z, Snap(), mem, [], NoTables, DbHead(argv, old(from)).value)
    {
      ghost var i := from;
      RoomForDb(z, i, |argv|);
      from := from + 1;
      if !argv[from].name {
        return Some(Failed);
      }
      var junk: DbSpec := *;
      Store(db, DbCell(junk.(name := argv[from].text)), z.db);
      ghost var m := mem;
      stop := BeginFirstTbl();
      SameThrough(old(mem), m, mem, db);
      if stop.None? {
        FirstIsBegun(argv, z, Snap(), i, Head(argv, i + 2).value);
      }
    }

    /** parse_first_db_spec and parse_next_db_spec on a DB_SPEC of at least DB_SPEC_LENGTH_MIN
        arguments; what is complete is not yet among the valid ones. */
    method ParseDb(ghost s: Setters, ghost body: BodyParser, ghost tp: Parser<Tbl>) returns (next: Node)
      requires Set(s, body) && IsTbl(argv, body, tp) && from + DB_SPEC_LENGTH_MIN <= |argv|
      requires db + z.db + z.tbl <= Bound(z, from) + 3 * z.col
      requires Synced()
      modifies this`from, this`mem, this`join, this`database, this`tbl, this`col, this`base, this`baseName, arena
      ensures Synced() && |mem| == |old(mem)|
      ensures DbOver(argv, z, Snap(), old(mem), s, next, DbAt(argv, tp, old(from)))
    {
      ghost var name := argv[from + 1].text;
      ghost var h, r := DbStep(argv, body, tp, from);
      var stop := BeginDb();
      if stop.Some? {
        DbStopped(argv, z, Snap(), old(mem), s, stop.value, h, r);
        return stop.value;
      }
      ghost var m := mem;
      ghost var ts, rs;
      next, ts, rs := ParseAllTbls(s, body, tp, h.value);
      TblsAreOver(argv, z, Snap(), old(mem), m, s, tp, ts, next, name, rs, r);
    }

    /** All tables of a database, the first of which has begun. */
    method ParseAllTbls(ghost s: Setters, ghost body: BodyParser, ghost tp: Parser<Tbl>, ghost h: Heading)
      returns (next: Node, ghost ts: seq<Tbl>, ghost r: Parse<seq<Tbl>>)
      requires Set(s, body) && IsTbl(argv, body, tp) && NextBegun(argv, z, Snap(), mem, [], NoTables, h)
      requires Synced()
      modifies this`from, this`mem, this`join, this`database, this`tbl, this`col, this`base, this`baseName, arena
      ensures Synced() && |mem| == |old(mem)|
      ensures r == TblsWith(argv, tp, [], AsTbl(h, ColsFrom(argv, body(h.rows), h.col, old(from))))
      ensures InTbls(argv, z, Snap(), old(mem), s, tp, ts, next, r) && !next.NextTbl?
    {
      ghost var m := mem;
      r := TblsWith(argv, tp, [], AsTbl(h, ColsFrom(argv, body(h.rows), h.col, from)));
      assert Views(s, []) == [] && CountTbls(s, []) == NoTables;
      next, ts := ParseTbl(m, s, body, tp, [], h, r);
      next, ts := ParseTbls(next, m, s, body, tp, ts, r);
    }

    /** parse_valid_complete, the table already complete: the database becomes the last of the valid
        ones. */
    method Validate(ghost vs: seq<DbView>, ghost name: Arg, ghost ts: seq<TblView>, ghost counted: DbCounter, ghost end: nat)
      requires end == col + z.col && SizesOk(z) && Committed(z, Snap(), vs, db) && DbPlaced(z, mem, db, name) &&
               TblsGathered(z, Snap(), ts, counted)
      requires Synced()
      modifies this`mem, this`head, this`last, this`generator, arena
      ensures Synced() && |mem| == |old(mem)|
      ensures Committed(z, Snap(), vs + [DbView(name, ts)], end) && generator == Update(old(generator), counted)
    {
      ghost var done := Valid(z, Snap(), vs, name, ts, counted, end);
      LinkDb(done);
    }

    method LinkDb(ghost done: State)
      requires 0 < z.tbl && 0 < z.db && tbl + z.tbl <= |mem| && mem[tbl].TblCell?
      requires last.Some? ==> last.value < tbl && last.value + z.db <= |mem| && mem[last.value].DbCell?
      requires done == SetLast(z, Ended(z, Snap()), Some(db)).(last := Some(db))
      requires Synced()
      modifies this`mem, this`head, this`last, this`generator, arena
      ensures Synced() && Snap() == done
    {
      Store(tbl, TblCell(arena[tbl].tbl.(next := None)), z.tbl);
      SetValidLast(Some(db));
      last := Some(db);
      generator := Update(generator, database);
    }

    /** `*(valid.last) = p`. */
    method SetValidLast(p: Option<nat>)
      requires last.Some? ==> 0 < z.db && last.value + z.db <= |mem| && mem[last.value].DbCell?
      requires Synced()
      modifies this`mem, this`head, arena
      ensures Synced() && Snap() == SetLast(z, old(Snap()), p)
    {
      match last
      case None => head := p;
      case Some(o) => Store(o, DbCell(arena[o].db.(next := p)), z.db);
    }

    /** parse_database_complete and the valid part of generate_parse_complete. */
    method AcceptDb(next: Node, ghost s: Setters, ghost dp: Parser<Db>, ghost acc: Accepted, ghost d: Db, ghost out: Outcome)
      returns (ghost more: Accepted, ghost end: nat)
      requires SizesOk(z) && Advances(dp, |argv|) && Committed(z, Snap(), acc.views, db) && generator == acc.counter
      requires from <= |argv| && ClosesDatabase(argv, from) && next == Closing(argv, false, from)
      requires DbPlaced(z, mem, db, d.name) && TblsGathered(z, Snap(), Views(s, d.tbls), CountTbls(s, d.tbls))
      requires Goes(argv, dp, acc.dbs + [d], clean, from, out)
      requires Synced()
      modifies this`mem, this`db, this`head, this`last, this`generator, arena
      ensures Synced() && |mem| == |old(mem)| && more == Accept(s, acc, d)
      ensures Running(argv, z, Snap(), dp, more, end, next, out)
    {
      end := col + z.col;
      more := Accept(s, acc, d);
      Validate(acc.views, d.name, Views(s, d.tbls), CountTbls(s, d.tbls), end);
      ghost var moved := AfterGoodDb(argv, z, Snap(), dp, more, end, next, out);
      MoveDb(next, end, moved);
    }

    /** The next database begins where this one ends. */
    method MoveDb(next: Node, ghost end: nat, ghost moved: State)
      requires end == col + z.col && moved == if next == NextDb then Snap().(db := end) else Snap()
      modifies this`db
      ensures Snap() == moved
    {
      if next == NextDb {
        db := col + z.col;
      }
    }

    /** What the methods for databases need to know. */
    ghost predicate Ruled(s: Setters, body: BodyParser, tp: Parser<Tbl>, dp: Parser<Db>) reads this {
      Set(s, body) && IsTbl(argv, body, tp) && IsDb(argv, tp, dp)
    }

    /** The end of parse_next_db_spec, once the DB_SPEC is parsed. */
    method JudgeDb(next: Node, ghost s: Setters, ghost dp: Parser<Db>, ghost before: State, ghost acc: Accepted,
                   ghost r: Parse<Db>, ghost out: Outcome)
      returns (ghost more: Accepted, ghost end: nat)
      requires SizesOk(z) && Advances(dp, |argv|) && before.from < |argv| && Forward(r, before.from, |argv|)
      requires Running(argv, z, before, dp, acc, before.db, NextDb, out) && GoesOn(argv, dp, acc.dbs, before.clean, r, out)
      requires DbOver(argv, z, Snap(), before.mem, s, next, r)
      requires db == before.db && head == before.head && last == before.last && generator == before.generator &&
               clean == before.clean
      requires Synced()
      modifies this`mem, this`db, this`head, this`last, this`generator, arena
      ensures Synced() && |mem| == |old(mem)| && Grown(s, acc, more, r)
      ensures Running(argv, z, Snap(), dp, more, end, next, out)
    {
      if next == Failed || next == Stopped {
        more, end := acc, db;
        AfterBadDb(argv, z, before, Snap(), dp, acc, next, r, out);
      } else {
        CommittedKept(z, before, Snap(), acc.views, db);
        more, end := AcceptDb(next, s, dp, acc, r.value, out);
      }
    }

    /** parse_next_db_spec. */
    method ParseNextDb(ghost s: Setters, ghost body: BodyParser, ghost tp: Parser<Tbl>, ghost dp: Parser<Db>,
                       ghost acc: Accepted, ghost out: Outcome)
      returns (next: Node, ghost r: Parse<Db>, ghost more: Accepted, ghost end: nat)
      requires Ruled(s, body, tp, dp) && Running(argv, z, Snap(), dp, acc, db, NextDb, out)
      requires Synced()
      modifies this`from, this`mem, this`join, this`database, this`db, this`tbl, this`col, this`base, this`baseName,
               this`head, this`last, this`generator, arena
      ensures Synced() && |mem| == |old(mem)| && Grown(s, acc, more, r)
      ensures Running(argv, z, Snap(), dp, more, end, next, out) && Rank(argv, next, from) < Rank(argv, NextDb, old(from))
    {
      if from + DB_SPEC_LENGTH_MIN > |argv| {
        ShortDb(argv, dp, acc.dbs, clean, from, out);
        return Stopped, Stop, acc, db;
      }
      ghost var before := Snap();
      r := dp(from);
      DbsStep(argv, tp, dp, acc.dbs, clean, from, out);
      next := ParseDb(s, body, tp);
      more, end := JudgeDb(next, s, dp, before, acc, r, out);
    }

    /** generate_parse_error: the failure is noted, and the search goes on behind the cursor. */
    method Recover(ghost dp: Parser<Db>, ghost acc: Accepted, ghost end: nat, ghost out: Outcome)
      requires SizesOk(z) && Advances(dp, |argv|) && Running(argv, z, Snap(), dp, acc, end, Failed, out)
      modifies this`from, this`clean
      ensures Running(argv, z, Snap(), dp, acc, end, NextDb, out) && end == db
      ensures Rank(argv, NextDb, from) < Rank(argv, Failed, old(from))
    {
      ghost var at, before := from, Snap();
      clean := false;
      from := SkipToDatabase(from + 1);
      ghost var i := from;
      assert i == Resume(argv, at);
      RoomierLater(z, db, at, from);
      CommittedKept(z, before, Snap(), acc.views, end);
    }

    /** flag_match_next for the database flag; `start` may already lie beyond the end. */
    method SkipToDatabase(start: nat) returns (at: nat)
      ensures at == NextDatabase(argv, start)
    {
      at := start;
      while at < |argv| && !F.Matches(argv[at].word, F.D, F.Database)
        invariant start <= at && NextDatabase(argv, at) == NextDatabase(argv, start)
        decreases |argv| - at
      {
        at := at + 1;
      }
      if at > |argv| {
        at := |argv|;
      }
    }

    /** All databases from the given node on. */
    method ParseDbs(first: Node, ghost s: Setters, ghost body: BodyParser, ghost tp: Parser<Tbl>, ghost dp: Parser<Db>,
                    ghost out: Outcome)
      returns (ghost acc: Accepted, ghost end: nat)
      requires Ruled(s, body, tp, dp) && (first == NextDb || first == Failed)
      requires Running(argv, z, Snap(), dp, Accepted([], [], NoDatabases), 0, first, out)
      requires Synced()
      modifies this`from, this`mem, this`join, this`database, this`db, this`tbl, this`col, this`base, this`baseName,
               this`head, this`last, this`generator, this`clean, arena
      ensures Synced() && Loaded(s, acc) && Terminated(z, Snap(), acc, end, out)
    {
      var next := first;
      acc, end := Accepted([], [], NoDatabases), 0;
      while next == NextDb || next == Failed
        invariant Synced() && |mem| == |old(mem)| && Loaded(s, acc)
        invariant Running(argv, z, Snap(), dp, acc, end, next, out)
        decreases Rank(argv, next, from) + 1
      {
        if next == Failed {
          Recover(dp, acc, end, out);
          next := NextDb;
        } else {
          ghost var r, more;
          next, r, more, end := ParseNextDb(s, body, tp, dp, acc, out);
          LoadedMore(s, acc, more, r);
          acc := more;
        }
      }
      Terminate(next, dp, acc, end, out);
    }

    /** `*(valid.last) = NULL`, and the status of a run that an error ended. */
    method Terminate(next: Node, ghost dp: Parser<Db>, ghost acc: Accepted, ghost end: nat, ghost out: Outcome)
      requires SizesOk(z) && Advances(dp, |argv|) && Running(argv, z, Snap(), dp, acc, end, next, out) && next != NextDb &&
               next != Failed
      requires Synced()
      modifies this`mem, this`head, this`clean, arena
      ensures Synced() && Terminated(z, Snap(), acc, end, out)
    {
      ghost var done := TerminatedRun(argv, z, Snap(), dp, acc, end, next, out);
      SetValidLast(None);
      clean := next == Complete && clean;
      assert Snap() == done;
    }

    /** parse_db_specs. */
    method ParseDbSpecs(ghost s: Setters, ghost body: BodyParser, ghost tp: Parser<Tbl>, ghost dp: Parser<Db>)
      returns (ghost acc: Accepted, ghost end: nat)
      requires SizesOk(z) && AreStandard(s) && AreBodies(argv, body) && IsTbl(argv, body, tp) && IsDb(argv, tp, dp)
      requires |argv| >= DB_SPEC_LENGTH_MIN && |mem| == AllocSize(z, |argv|)
      requires from == 0 && db == 0 && last == None && generator == NoDatabases && clean
      requires Synced()
      modifies this`from, this`mem, this`join, this`database, this`db, this`tbl, this`col, this`base, this`baseName,
               this`head, this`last, this`generator, this`clean, arena
      ensures Synced() && Loaded(s, acc) && Terminated(z, Snap(), acc, end, RunWith(argv, dp))
    {
      AllocIsBound(z, |argv|);
      ghost var out := RunWith(argv, dp);
      var first := if F.Matches(argv[0].word, F.D, F.Database) then NextDb else Failed;
      assert 0 + 1 == 1;
      acc, end := ParseDbs(first, s, body, tp, dp, out);
    }
  }
}
