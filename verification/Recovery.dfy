/** How a DB_SPEC fails and where the search for the next one starts: an acceptor that takes one
    argument at a time, its agreement with the parser, and what exactly a run accepts. */
module Recovery {
  import opened Octets
  import opened Numbers
  import opened Specs
  import opened Tokens
  import opened Parsing
  import opened Members
  import opened BodySpelling
  import opened Grammar
  import opened Spelling
  import F = Flags

  /** The row count of the table, and whether a JOIN is being read. */
  datatype Place = Place(rows: nat, inJoin: bool)

  /** What the next argument may be. */
  datatype Expect =
    | DbName
    | FirstTable                       // the flag of the first table
    | TblName
    | Rows
    | FirstColumn(rows: nat)           // the flag of the first column
    | ColName(rows: nat)
    | ColType(rows: nat)
    | AJoin(rows: nat)
    | IntegerMore(at: Place, sign: Sign)
    | RandomMore(at: Place, sign: Sign)
    | FixedInt(at: Place, sign: Sign)
    | OneBound(at: Place, sign: Sign)
    | Minimum(at: Place, sign: Sign)
    | Maximum(at: Place, sign: Sign, low: int)
    | StringMore(at: Place)
    | BaseText(at: Place)
    | FixedText(at: Place)
    | Length(at: Place)
    | TimeMore(at: Place)
    | Done(at: Place, groupable: bool) // a column or JOIN that needs nothing more
    | Count(at: Place)
    | Partition(at: Place)
    | Grouped(at: Place)

  /** Why an argument is refused. */
  datatype Cause = Unexpected | SecondGroup | Reversed

  datatype Verdict =
    | Fits(end: nat)                   // a whole DB_SPEC up to here
    | Refused(at: nat, cause: Cause)   // the first argument that cannot be part of it
    | RunsOut                          // the arguments end before the DB_SPEC does

  /** Another column, JOIN or table, or a GRP_SPEC. */
  function AfterEnd(at: Place, groupable: bool, t: Token): Option<Expect> {
    if F.Is(t.word, F.C, F.Column) then Some(ColName(at.rows))
    else if F.Is(t.word, F.T, F.Table) then Some(TblName)
    else if at.inJoin && t.word.Plus? then Some(AJoin(at.rows))
    else if groupable && F.Is(t.word, F.G, F.Group) then Some(Count(at))
    else None
  }

  function TypeWord(at: Place, t: Token): Option<Expect> {
    if F.Is(t.word, F.I, F.Integer) then Some(IntegerMore(at, Signed))
    else if F.Is(t.word, F.U, F.Unsigned) then Some(IntegerMore(at, Unsigned))
    else if F.Is(t.word, F.S, F.String) then Some(StringMore(at))
    else if F.Is(t.word, F.TS, F.Timestamp) || F.Is(t.word, F.DT, F.Datetime) then Some(TimeMore(at))
    else None
  }

  function When(ok: bool, next: Expect): Option<Expect> {
    if ok then Some(next) else None
  }

  function StringWordTakes(at: Place, t: Token): Option<Expect> {
    if F.Is(t.word, F.U, F.Unique) then Some(BaseText(at))
    else if F.Is(t.word, F.F, F.Fixed) then Some(FixedText(at))
    else if F.Is(t.word, F.H, F.Hash) then Some(Length(at))
    else if F.Is(t.word, F.J, F.Join) && !at.inJoin then Some(AJoin(at.rows))
    else if F.Is(t.word, F.UU, F.Uuid) || F.Is(t.word, F.N1, F.NamesFirst) || F.Is(t.word, F.NL, F.NamesLast)
            || F.Is(t.word, F.NF, F.NamesFull) then Some(Done(at, true))
    else AfterEnd(at, true, t)
  }

  /** What may come after `t`; None if `t` is refused. */
  function Takes(e: Expect, t: Token): Option<Expect> {
    match e
    case DbName => When(t.name, FirstTable)
    case FirstTable => When(F.Matches(t.word, F.T, F.Table), TblName)
    case TblName => When(t.name, Rows)
    case Rows => if RowCount(t.unsigned).Some? then Some(FirstColumn(RowCount(t.unsigned).value)) else None
    case FirstColumn(rows) => When(F.Matches(t.word, F.C, F.Column), ColName(rows))
    case ColName(rows) => When(t.name, ColType(rows))
    case ColType(rows) => TypeWord(Place(rows, false), t)
    case AJoin(rows) =>
      if F.StartsWithDash(t.word) then TypeWord(Place(rows, true), t) else When(t.fixed, Done(Place(rows, true), false))
    case IntegerMore(at, s) =>
      if F.Is(t.word, F.U, F.Unique) then Some(Done(at, true))
      else if F.Is(t.word, F.F, F.Fixed) then Some(FixedInt(at, s))
      else if F.Is(t.word, F.R, F.Random) then Some(RandomMore(at, s))
      else AfterEnd(at, true, t)
    case RandomMore(at, s) =>
      if F.Is(t.word, F.F, F.From) || F.Is(t.word, F.U, F.Upto) then Some(OneBound(at, s))
      else if F.Is(t.word, F.R, F.Range) then Some(Minimum(at, s))
      else AfterEnd(at, true, t)
    case FixedInt(at, s) => When(Number(s, t).Some?, Done(at, false))
    case OneBound(at, s) => When(Number(s, t).Some?, Done(at, true))
    case Minimum(at, s) => if Number(s, t).Some? then Some(Maximum(at, s, Number(s, t).value)) else None
    case Maximum(at, s, low) => When(Number(s, t).Some? && low <= Number(s, t).value, Done(at, true))
    case StringMore(at) => StringWordTakes(at, t)
    case BaseText(at) => When(t.base, Done(at, true))
    case FixedText(at) => When(t.fixed, Done(at, false))
    case Length(at) => When(HashLength(t.unsigned).Some?, Done(at, true))
    case TimeMore(at) =>
      if F.Is(t.word, F.F, F.Fixed) then Some(Done(at, false))
      else if F.Is(t.word, F.U, F.Unique) then Some(Done(at, true))
      else AfterEnd(at, true, t)
    case Done(at, groupable) => AfterEnd(at, groupable, t)
    case Count(at) => When(GrpCount(t.unsigned, at.rows).Some?, Partition(at))
    case Partition(at) =>
      if F.Is(t.word, F.E, F.Even) || F.Is(t.word, F.L, F.Linear) then Some(Grouped(at)) else AfterEnd(at, false, t)
    case Grouped(at) => AfterEnd(at, false, t)
  }

  /** A DB_SPEC may be over. */
  predicate MayEnd(e: Expect) {
    e.IntegerMore? || e.RandomMore? || e.StringMore? || e.TimeMore? || e.Done? || e.Partition? || e.Grouped?
  }

  function CauseOf(e: Expect, t: Token): Cause {
    if e.Maximum? && Number(e.sign, t).Some? then Reversed
    else if (e.Partition? || e.Grouped?) && F.Is(t.word, F.G, F.Group) then SecondGroup
    else Unexpected
  }

  /** Takes arguments from `j` on until the DB_SPEC is over or one is refused. */
  function Walk(argv: Argv, e: Expect, j: nat): Verdict
    requires j <= |argv|
    decreases |argv| - j
  {
    if j == |argv| then (if MayEnd(e) then Fits(j) else RunsOut)
    else if MayEnd(e) && F.Is(argv[j].word, F.D, F.Database) then Fits(j)
    else match Takes(e, argv[j])
      case Some(next) => Walk(argv, next, j + 1)
      case None => Refused(j, CauseOf(e, argv[j]))
  }

  // ---------- agreement with the parser ----------

  /** What the parser reports of a verdict. */
  function Report(v: Verdict): Parse<()> {
    match v
    case Fits(end) => Ok((), end)
    case Refused(at, Unexpected) => Bad(at)
    case Refused(at, SecondGroup) => Bad(at + 1)
    case Refused(_, Reversed) => Stop
    case RunsOut => Stop
  }

  /** A parse without its value. */
  function Bare<T>(r: Parse<T>): Parse<()> {
    match r
    case Ok(_, at) => Ok((), at)
    case Bad(at) => Bad(at)
    case Stop => Stop
  }

  /** Walk as something to ask, one position at a time. */
  type Walker = (Expect, nat) -> Verdict

  predicate Asked(e: Expect, j: nat) {
    true
  }

  ghost predicate IsWalk(argv: Argv, w: Walker) {
    forall e: Expect, j: nat {:trigger Asked(e, j)} :: Asked(e, j) && j <= |argv| ==> w(e, j) == Walk(argv, e, j)
  }

  function WalkerOf(argv: Argv): Walker {
    (e: Expect, j: nat) => if j <= |argv| then Walk(argv, e, j) else RunsOut
  }

  lemma WalkerWalks(argv: Argv)
    ensures IsWalk(argv, WalkerOf(argv))
  {
  }

  /** The parser gets from `e` at `j` to `over`, or to the same failure. */
  ghost predicate LeadsTo<T>(w: Walker, e: Expect, j: nat, r: Parse<T>, over: Expect) {
    Report(w(e, j)) == if r.Ok? then Report(w(over, r.at)) else Bare(r)
  }

  lemma StepTo(argv: Argv, w: Walker, e: Expect, j: nat)
    requires IsWalk(argv, w)
    requires j < |argv| && !(MayEnd(e) && F.Is(argv[j].word, F.D, F.Database))
    ensures w(e, j) == match Takes(e, argv[j])
                       case Some(next) => w(next, j + 1)
                       case None => Refused(j, CauseOf(e, argv[j]))
  {
    assert Asked(e, j);
    if Takes(e, argv[j]).Some? {
      assert Asked(Takes(e, argv[j]).value, j + 1);
    }
  }

  lemma EndAt(argv: Argv, w: Walker, e: Expect)
    requires IsWalk(argv, w)
    ensures w(e, |argv|) == if MayEnd(e) then Fits(|argv|) else RunsOut
  {
    assert Asked(e, |argv|);
  }

  /** Where something must come. */
  lemma Read(argv: Argv, w: Walker, e: Expect, j: nat)
    requires IsWalk(argv, w)
    requires j <= |argv| && !MayEnd(e)
    ensures w(e, j) == if j == |argv| then RunsOut
                       else match Takes(e, argv[j])
                         case Some(next) => w(next, j + 1)
                         case None => Refused(j, CauseOf(e, argv[j]))
  {
    if j < |argv| {
      StepTo(argv, w, e, j);
    } else {
      EndAt(argv, w, e);
    }
  }

  lemma FixedIntLeads(argv: Argv, w: Walker, at: Place, s: Sign, j: nat)
    requires IsWalk(argv, w)
    requires j <= |argv|
    ensures LeadsTo(w, FixedInt(at, s), j, IntegerFixed(argv, s, j), Done(at, false))
  {
    Read(argv, w, FixedInt(at, s), j);
  }

  lemma FromLeads(argv: Argv, w: Walker, at: Place, s: Sign, j: nat)
    requires IsWalk(argv, w)
    requires j <= |argv|
    ensures LeadsTo(w, OneBound(at, s), j, RandomFrom(argv, s, j), Done(at, true))
  {
    Read(argv, w, OneBound(at, s), j);
  }

  lemma UptoLeads(argv: Argv, w: Walker, at: Place, s: Sign, j: nat)
    requires IsWalk(argv, w)
    requires j <= |argv|
    ensures LeadsTo(w, OneBound(at, s), j, RandomUpto(argv, s, j), Done(at, true))
  {
    Read(argv, w, OneBound(at, s), j);
  }

  lemma RangeLeads(argv: Argv, w: Walker, at: Place, s: Sign, j: nat)
    requires IsWalk(argv, w)
    requires j <= |argv|
    ensures LeadsTo(w, Minimum(at, s), j, RandomRange(argv, s, j), Done(at, true))
  {
    Read(argv, w, Minimum(at, s), j);
    if j < |argv| && Number(s, argv[j]).Some? {
      Read(argv, w, Maximum(at, s, Number(s, argv[j]).value), j + 1);
    }
  }

  /** A qualifier that is left out changes nothing. */
  lemma SameWalk(argv: Argv, w: Walker, e: Expect, f: Expect, j: nat)
    requires IsWalk(argv, w)
    requires j <= |argv| && MayEnd(e) && MayEnd(f)
    requires j < |argv| ==> Takes(e, argv[j]) == Takes(f, argv[j]) && CauseOf(e, argv[j]) == CauseOf(f, argv[j])
    ensures w(e, j) == w(f, j)
  {
    if j < |argv| && !F.Is(argv[j].word, F.D, F.Database) {
      StepTo(argv, w, e, j);
      StepTo(argv, w, f, j);
    } else {
      assert Asked(e, j) && Asked(f, j);
    }
  }

  lemma RandomLeads(argv: Argv, w: Walker, at: Place, s: Sign, j: nat)
    requires IsWalk(argv, w)
    requires j <= |argv|
    ensures LeadsTo(w, RandomMore(at, s), j, RandomQualifier(argv, s, j), Done(at, true))
  {
    var e := RandomMore(at, s);
    if j == |argv| {
      SameWalk(argv, w, e, Done(at, true), j);
    } else if F.Is(argv[j].word, F.F, F.From) {
      StepTo(argv, w, e, j);
      FromLeads(argv, w, at, s, j + 1);
    } else if F.Is(argv[j].word, F.U, F.Upto) {
      StepTo(argv, w, e, j);
      UptoLeads(argv, w, at, s, j + 1);
    } else if F.Is(argv[j].word, F.R, F.Range) {
      StepTo(argv, w, e, j);
      RangeLeads(argv, w, at, s, j + 1);
    } else {
      SameWalk(argv, w, e, Done(at, true), j);
    }
  }

  /** The end of a column or JOIN of this kind. */
  function DoneWith(at: Place, r: Parse<Kind>): Expect {
    Done(at, r.Ok? && !IsFixedData(r.value))
  }

  lemma IntegerLeads(argv: Argv, w: Walker, at: Place, s: Sign, j: nat)
    requires IsWalk(argv, w)
    requires j <= |argv|
    ensures var r := IntegerQualifier(argv, s, j); LeadsTo(w, IntegerMore(at, s), j, r, DoneWith(at, r))
  {
    var e := IntegerMore(at, s);
    if j == |argv| {
      SameWalk(argv, w, e, Done(at, true), j);
    } else if F.Is(argv[j].word, F.U, F.Unique) {
      StepTo(argv, w, e, j);
    } else if F.Is(argv[j].word, F.F, F.Fixed) {
      StepTo(argv, w, e, j);
      FixedIntLeads(argv, w, at, s, j + 1);
    } else if F.Is(argv[j].word, F.R, F.Random) {
      StepTo(argv, w, e, j);
      RandomLeads(argv, w, at, s, j + 1);
    } else {
      SameWalk(argv, w, e, Done(at, true), j);
    }
  }

  lemma BaseLeads(argv: Argv, w: Walker, at: Place, j: nat)
    requires IsWalk(argv, w)
    requires j <= |argv|
    ensures LeadsTo(w, BaseText(at), j, BaseString(argv, j), Done(at, true))
  {
    Read(argv, w, BaseText(at), j);
  }

  lemma FixedLeads(argv: Argv, w: Walker, at: Place, j: nat)
    requires IsWalk(argv, w)
    requires j <= |argv|
    ensures LeadsTo(w, FixedText(at), j, FixedString(argv, j), Done(at, false))
  {
    Read(argv, w, FixedText(at), j);
  }

  lemma HashLeads(argv: Argv, w: Walker, at: Place, j: nat)
    requires IsWalk(argv, w)
    requires j <= |argv|
    ensures LeadsTo(w, Length(at), j, HashString(argv, j), Done(at, true))
  {
    Read(argv, w, Length(at), j);
  }

  /** `-j` is no qualifier here: it begins a JOIN_SPEC in a column, and is refused in a JOIN. */
  lemma StringLeads(argv: Argv, w: Walker, at: Place, j: nat)
    requires IsWalk(argv, w)
    requires j <= |argv| && (at.inJoin || j == |argv| || !F.Is(argv[j].word, F.J, F.Join))
    ensures var r := StringQualifier(argv, j); LeadsTo(w, StringMore(at), j, r, DoneWith(at, r))
  {
    var e := StringMore(at);
    if j == |argv| {
      SameWalk(argv, w, e, Done(at, true), j);
    } else if F.Is(argv[j].word, F.U, F.Unique) {
      StepTo(argv, w, e, j);
      BaseLeads(argv, w, at, j + 1);
    } else if F.Is(argv[j].word, F.F, F.Fixed) {
      StepTo(argv, w, e, j);
      FixedLeads(argv, w, at, j + 1);
    } else if F.Is(argv[j].word, F.H, F.Hash) {
      StepTo(argv, w, e, j);
      HashLeads(argv, w, at, j + 1);
    } else if StringWord(argv, j).value != StrDefault {
      StepTo(argv, w, e, j);
    } else {
      SameWalk(argv, w, e, Done(at, true), j);
    }
  }

  lemma TimeLeads(argv: Argv, w: Walker, at: Place, clock: Clock, j: nat)
    requires IsWalk(argv, w)
    requires j <= |argv|
    ensures var r := TimeQualifier(argv, clock, j); LeadsTo(w, TimeMore(at), j, r, DoneWith(at, r))
  {
    var e := TimeMore(at);
    if j == |argv| {
      SameWalk(argv, w, e, Done(at, true), j);
    } else if F.Is(argv[j].word, F.F, F.Fixed) || F.Is(argv[j].word, F.U, F.Unique) {
      StepTo(argv, w, e, j);
    } else {
      SameWalk(argv, w, e, Done(at, true), j);
    }
  }

  /** Expects COL_TYPE. */
  predicate AtType(e: Expect, at: Place, t: Token) {
    if at.inJoin then e == AJoin(at.rows) && F.StartsWithDash(t.word) else e == ColType(at.rows)
  }

  lemma TypeStep(argv: Argv, w: Walker, e: Expect, at: Place, i: nat)
    requires IsWalk(argv, w)
    requires i < |argv| && AtType(e, at, argv[i])
    ensures w(e, i) == match TypeWord(at, argv[i])
                                case Some(next) => w(next, i + 1)
                                case None => Refused(i, Unexpected)
  {
    StepTo(argv, w, e, i);
  }

  lemma LeadsFrom<T>(argv: Argv, w: Walker, e: Expect, i: nat, next: Expect, j: nat, r: Parse<T>, over: Expect)
    requires IsWalk(argv, w)
    requires i <= |argv| && j <= |argv| && w(e, i) == w(next, j) && LeadsTo(w, next, j, r, over)
    ensures LeadsTo(w, e, i, r, over)
  {
  }

  lemma KindLeads(argv: Argv, w: Walker, e: Expect, at: Place, i: nat)
    requires IsWalk(argv, w)
    requires i < |argv| && AtType(e, at, argv[i])
    requires F.Is(argv[i].word, F.S, F.String) && !at.inJoin && i + 1 < |argv| ==> !F.Is(argv[i + 1].word, F.J, F.Join)
    ensures var r := KindAt(argv, i); LeadsTo(w, e, i, r, DoneWith(at, r))
  {
    var r := KindAt(argv, i);
    TypeStep(argv, w, e, at, i);
    if F.Is(argv[i].word, F.I, F.Integer) {
      IntegerLeads(argv, w, at, Signed, i + 1);
      LeadsFrom(argv, w, e, i, IntegerMore(at, Signed), i + 1, r, DoneWith(at, r));
    } else if F.Is(argv[i].word, F.U, F.Unsigned) {
      IntegerLeads(argv, w, at, Unsigned, i + 1);
      LeadsFrom(argv, w, e, i, IntegerMore(at, Unsigned), i + 1, r, DoneWith(at, r));
    } else if F.Is(argv[i].word, F.S, F.String) {
      StringLeads(argv, w, at, i + 1);
      LeadsFrom(argv, w, e, i, StringMore(at), i + 1, r, DoneWith(at, r));
    } else if F.Is(argv[i].word, F.TS, F.Timestamp) {
      TimeLeads(argv, w, at, Timestamp, i + 1);
      LeadsFrom(argv, w, e, i, TimeMore(at), i + 1, r, DoneWith(at, r));
    } else if F.Is(argv[i].word, F.DT, F.Datetime) {
      TimeLeads(argv, w, at, Datetime, i + 1);
      LeadsFrom(argv, w, e, i, TimeMore(at), i + 1, r, DoneWith(at, r));
    }
  }

  lemma AfterPartLeads(argv: Argv, w: Walker, e: Expect, at: Place, m: Member, j: nat)
    requires IsWalk(argv, w)
    requires j <= |argv| && (e == Grouped(at) || e == Partition(at))
    requires e.Partition? && j < |argv| ==> !F.Is(argv[j].word, F.E, F.Even) && !F.Is(argv[j].word, F.L, F.Linear)
    ensures LeadsTo(w, e, j, AfterPart(argv, at.inJoin, m, j), Done(at, false))
  {
    if Follows(argv, at.inJoin, j) {
      SameWalk(argv, w, e, Done(at, false), j);
    } else {
      StepTo(argv, w, e, j);
    }
  }

  lemma PartLeads(argv: Argv, w: Walker, at: Place, k: Kind, count: nat, j: nat)
    requires IsWalk(argv, w)
    requires j <= |argv|
    ensures LeadsTo(w, Partition(at), j, PartType(argv, at.inJoin, k, count, j), Done(at, false))
  {
    if j < |argv| && F.Is(argv[j].word, F.E, F.Even) {
      StepTo(argv, w, Partition(at), j);
      AfterPartLeads(argv, w, Grouped(at), at, Member(k, Some(Grp(count, Even))), j + 1);
    } else if j < |argv| && F.Is(argv[j].word, F.L, F.Linear) {
      StepTo(argv, w, Partition(at), j);
      AfterPartLeads(argv, w, Grouped(at), at, Member(k, Some(Grp(count, Linear))), j + 1);
    } else {
      AfterPartLeads(argv, w, Partition(at), at, Member(k, Some(Grp(count, Even))), j);
    }
  }

  lemma GrpLeads(argv: Argv, w: Walker, at: Place, k: Kind, j: nat)
    requires IsWalk(argv, w)
    requires j <= |argv|
    ensures LeadsTo(w, Count(at), j, GrpSpec(argv, at.rows, at.inJoin, k, j), Done(at, false))
  {
    Read(argv, w, Count(at), j);
    if j < |argv| && GrpCount(argv[j].unsigned, at.rows).Some? {
      PartLeads(argv, w, at, k, GrpCount(argv[j].unsigned, at.rows).value, j + 1);
    }
  }

  lemma TailLeads(argv: Argv, w: Walker, at: Place, k: Kind, j: nat)
    requires IsWalk(argv, w)
    requires j <= |argv|
    ensures LeadsTo(w, Done(at, !IsFixedData(k)), j, Tail(argv, at.rows, at.inJoin, k, j), Done(at, false))
  {
    var e := Done(at, !IsFixedData(k));
    if Follows(argv, at.inJoin, j) {
      SameWalk(argv, w, e, Done(at, false), j);
    } else if F.Is(argv[j].word, F.G, F.Group) && !IsFixedData(k) {
      StepTo(argv, w, e, j);
      GrpLeads(argv, w, at, k, j + 1);
    } else {
      StepTo(argv, w, e, j);
    }
  }

  lemma ThenTailLeads(argv: Argv, w: Walker, e: Expect, at: Place, i: nat, k: Parse<Kind>)
    requires IsWalk(argv, w)
    requires i <= |argv| && (k.Ok? ==> k.at <= |argv|) && LeadsTo(w, e, i, k, DoneWith(at, k))
    ensures LeadsTo(w, e, i, ThenTail(argv, at.rows, at.inJoin, k), Done(at, false))
  {
    if k.Ok? {
      TailLeads(argv, w, at, k.value, k.at);
    }
  }

  lemma PlainLeads(argv: Argv, w: Walker, rows: nat, i: nat)
    requires IsWalk(argv, w)
    requires i < |argv|
    requires F.Is(argv[i].word, F.S, F.String) && i + 1 < |argv| ==> !F.Is(argv[i + 1].word, F.J, F.Join)
    ensures LeadsTo(w, ColType(rows), i, PlainAt(argv, rows, i), Done(Place(rows, false), false))
  {
    var at := Place(rows, false);
    KindLeads(argv, w, ColType(rows), at, i);
    ThenTailLeads(argv, w, ColType(rows), at, i, KindAt(argv, i));
  }

  lemma JoinLeads(argv: Argv, w: Walker, rows: nat, i: nat)
    requires IsWalk(argv, w)
    requires i < |argv|
    ensures LeadsTo(w, AJoin(rows), i, JoinAt(argv, rows, i), Done(Place(rows, true), false))
  {
    var at := Place(rows, true);
    if F.StartsWithDash(argv[i].word) {
      KindLeads(argv, w, AJoin(rows), at, i);
      ThenTailLeads(argv, w, AJoin(rows), at, i, KindAt(argv, i));
    } else {
      StepTo(argv, w, AJoin(rows), i);
      ThenTailLeads(argv, w, AJoin(rows), at, i, FixedString(argv, i));
    }
  }

  // ---------- repetition ----------

  /** The verdict from every position. */
  ghost function From(w: Walker, e: Expect): nat -> Verdict {
    (j: nat) => w(e, j)
  }

  ghost predicate Moves<T>(r: Parse<T>, verdict: nat -> Verdict, i: nat) {
    Report(verdict(i)) == if r.Ok? then Report(verdict(r.at)) else Bare(r)
  }

  ghost predicate ItemsMove<T>(item: Parser<T>, starts: nat -> bool, verdict: nat -> Verdict, n: nat) {
    forall i: nat {:trigger item(i)} :: i < n && starts(i) ==> Moves(item(i), verdict, i)
  }

  lemma {:induction false} ManyMoves<T>(item: Parser<T>, starts: nat -> bool, verdict: nat -> Verdict, n: nat,
                                        done: seq<T>, j: nat)
    requires Advances(item, n) && ItemsMove(item, starts, verdict, n) && j <= n
    ensures var r := Many(item, starts, n, done, j); Moves(r, verdict, j) && (r.Ok? ==> r.at == n || !starts(r.at))
    decreases n - j
  {
    if j < n && starts(j) && item(j).Ok? {
      ManyMoves(item, starts, verdict, n, done + [item(j).value], item(j).at);
    }
  }

  ghost predicate JoinsLead(argv: Argv, w: Walker, rows: nat, join: Parser<Member>) {
    forall i: nat {:trigger join(i)} :: i < |argv| ==> LeadsTo(w, AJoin(rows), i, join(i), Done(Place(rows, true), false))
  }

  lemma JoinItemsMove(argv: Argv, w: Walker, rows: nat, join: Parser<Member>)
    requires IsWalk(argv, w)
    requires Advances(join, |argv|) && JoinsLead(argv, w, rows, join)
    ensures ItemsMove(PlusItems(argv, join), Pluses(argv), From(w, Done(Place(rows, true), false)), |argv|)
  {
    var done := Done(Place(rows, true), false);
    forall i: nat | i < |argv| && Pluses(argv)(i) ensures Moves(PlusItems(argv, join)(i), From(w, done), i) {
      StepTo(argv, w, done, i);
      if i + 1 < |argv| {
        assert LeadsTo(w, AJoin(rows), i + 1, join(i + 1), done);
      } else {
        EndAt(argv, w, AJoin(rows));
      }
    }
  }

  lemma JoinSpecLeads(argv: Argv, w: Walker, rows: nat, join: Parser<Member>, j: nat)
    requires IsWalk(argv, w)
    requires j <= |argv| && Advances(join, |argv|) && JoinsLead(argv, w, rows, join)
    ensures LeadsTo(w, AJoin(rows), j, JoinSpec(argv, join, j), Done(Place(rows, false), false))
  {
    var done := Done(Place(rows, true), false);
    if j == |argv| {
      EndAt(argv, w, AJoin(rows));
    } else {
      assert LeadsTo(w, AJoin(rows), j, join(j), done);
      if join(j).Ok? {
        var m, at := join(j).value, join(j).at;
        JoinItemsMove(argv, w, rows, join);
        ManyMoves(PlusItems(argv, join), Pluses(argv), From(w, done), |argv|, [m], at);
        var r := JoinsAt(argv, join, [m], at);
        if r.Ok? {
          SameWalk(argv, w, done, Done(Place(rows, false), false), r.at);
        }
      }
    }
  }

  lemma ConcreteJoinsLead(argv: Argv, w: Walker, rows: nat)
    requires IsWalk(argv, w)
    ensures JoinsLead(argv, w, rows, JoinParser(argv, rows))
  {
    forall i: nat {:trigger JoinParser(argv, rows)(i)} | i < |argv|
      ensures LeadsTo(w, AJoin(rows), i, JoinParser(argv, rows)(i), Done(Place(rows, true), false))
    {
      JoinLeads(argv, w, rows, i);
    }
  }

  lemma ToJoin(argv: Argv, w: Walker, rows: nat, i: nat)
    requires IsWalk(argv, w)
    requires i + 1 < |argv| && F.Is(argv[i].word, F.S, F.String) && F.Is(argv[i + 1].word, F.J, F.Join)
    ensures w(ColType(rows), i) == w(AJoin(rows), i + 2)
  {
    StepTo(argv, w, ColType(rows), i);
    StepTo(argv, w, StringMore(Place(rows, false)), i + 1);
  }

  lemma BodyIsPlain(argv: Argv, rows: nat, i: nat)
    requires i < |argv| && !(F.Is(argv[i].word, F.S, F.String) && i + 1 < |argv| && F.Is(argv[i + 1].word, F.J, F.Join))
    ensures Bare(PlainAt(argv, rows, i)) == Bare(BodyAt(argv, rows, i))
  {
  }

  lemma BodyLeads(argv: Argv, w: Walker, rows: nat, i: nat)
    requires IsWalk(argv, w)
    requires i < |argv|
    ensures LeadsTo(w, ColType(rows), i, BodyAt(argv, rows, i), Done(Place(rows, false), false))
  {
    var over := Done(Place(rows, false), false);
    if F.Is(argv[i].word, F.S, F.String) && i + 1 < |argv| && F.Is(argv[i + 1].word, F.J, F.Join) {
      var join := JoinParser(argv, rows);
      ToJoin(argv, w, rows, i);
      ConcreteJoinsLead(argv, w, rows);
      JoinSpecLeads(argv, w, rows, join, i + 2);
      assert BodyAt(argv, rows, i) == JoinSpec(argv, join, i + 2);
      LeadsFrom(argv, w, ColType(rows), i, AJoin(rows), i + 2, JoinSpec(argv, join, i + 2), over);
    } else {
      PlainLeads(argv, w, rows, i);
      BodyIsPlain(argv, rows, i);
      assert PlainAt(argv, rows, i).Ok? <==> BodyAt(argv, rows, i).Ok?;
    }
  }

  // ---------- columns, tables and databases ----------

  /** A column that may be the last of its table. */
  function ColDone(rows: nat): Expect {
    Done(Place(rows, false), false)
  }

  ghost predicate BodiesLead(argv: Argv, w: Walker, body: BodyParser) {
    forall rows: nat, i: nat {:trigger body(rows)(i)} :: i < |argv| ==> LeadsTo(w, ColType(rows), i, body(rows)(i), ColDone(rows))
  }

  lemma ColLeads(argv: Argv, w: Walker, body: BodyParser, rows: nat, i: nat)
    requires IsWalk(argv, w)
    requires BodiesAdvance(body, |argv|) && BodiesLead(argv, w, body) && i < |argv|
    ensures LeadsTo(w, ColName(rows), i + 1, ColAt(argv, body(rows), i), ColDone(rows))
  {
    var one := body(rows);
    Read(argv, w, ColName(rows), i + 1);
    if i + 1 < |argv| && argv[i + 1].name {
      if i + 2 < |argv| {
        assert LeadsTo(w, ColType(rows), i + 2, body(rows)(i + 2), ColDone(rows));
      } else {
        EndAt(argv, w, ColType(rows));
      }
    }
  }

  lemma ColItemsMove(argv: Argv, w: Walker, body: BodyParser, rows: nat)
    requires IsWalk(argv, w)
    requires BodiesAdvance(body, |argv|) && BodiesLead(argv, w, body)
    ensures ItemsMove(ColItems(argv, body(rows)), Columns(argv), From(w, ColDone(rows)), |argv|)
  {
    var item := ColItems(argv, body(rows));
    forall i: nat | i < |argv| && Columns(argv)(i) ensures Moves(item(i), From(w, ColDone(rows)), i) {
      StepTo(argv, w, ColDone(rows), i);
      ColLeads(argv, w, body, rows, i);
    }
  }

  lemma ColsLead(argv: Argv, w: Walker, body: BodyParser, rows: nat, c: Col, at: nat)
    requires IsWalk(argv, w)
    requires BodiesAdvance(body, |argv|) && BodiesLead(argv, w, body) && at <= |argv|
    ensures LeadsTo(w, ColDone(rows), at, ColsAt(argv, body(rows), [c], at), ColDone(0))
  {
    ColItemsMove(argv, w, body, rows);
    ManyMoves(ColItems(argv, body(rows)), Columns(argv), From(w, ColDone(rows)), |argv|, [c], at);
    var r := ColsAt(argv, body(rows), [c], at);
    if r.Ok? {
      SameWalk(argv, w, ColDone(rows), ColDone(0), r.at);
    }
  }

  lemma TblHeadLeads(argv: Argv, w: Walker, i: nat)
    requires IsWalk(argv, w)
    requires i < |argv|
    ensures var h := TblHead(argv, i);
            Report(w(TblName, i + 1)) == if h.Ok? then Report(w(ColName(h.value.1), i + 4)) else Bare(h)
  {
    Read(argv, w, TblName, i + 1);
    if i + 1 < |argv| && argv[i + 1].name {
      Read(argv, w, Rows, i + 2);
      if i + 2 < |argv| && RowCount(argv[i + 2].unsigned).Some? {
        Read(argv, w, FirstColumn(RowCount(argv[i + 2].unsigned).value), i + 3);
      }
    }
  }

  lemma TblLeads(argv: Argv, w: Walker, body: BodyParser, i: nat)
    requires IsWalk(argv, w)
    requires BodiesAdvance(body, |argv|) && BodiesLead(argv, w, body) && i < |argv|
    ensures LeadsTo(w, TblName, i + 1, TblAt(argv, body, i), ColDone(0))
  {
    TblHeadLeads(argv, w, i);
    var h := TblHead(argv, i);
    if h.Ok? {
      var rows, first := h.value.1, h.at;
      ColLeads(argv, w, body, rows, first);
      var c := ColAt(argv, body(rows), first);
      if c.Ok? {
        ColsLead(argv, w, body, rows, c.value, c.at);
      }
    }
  }

  ghost predicate TblsLead(argv: Argv, w: Walker, tbl: Parser<Tbl>) {
    forall i: nat {:trigger tbl(i)} :: i < |argv| ==> LeadsTo(w, TblName, i + 1, tbl(i), ColDone(0))
  }

  lemma TblItemsLead(argv: Argv, w: Walker, body: BodyParser)
    requires IsWalk(argv, w)
    requires BodiesAdvance(body, |argv|) && BodiesLead(argv, w, body)
    ensures TblsLead(argv, w, TblItems(argv, body))
  {
    var tbl := TblItems(argv, body);
    forall i: nat {:trigger tbl(i)} | i < |argv| ensures LeadsTo(w, TblName, i + 1, tbl(i), ColDone(0)) {
      TblLeads(argv, w, body, i);
    }
  }

  lemma TblsMove(argv: Argv, w: Walker, tbl: Parser<Tbl>)
    requires IsWalk(argv, w)
    requires TblsLead(argv, w, tbl)
    ensures ItemsMove(tbl, Tables(argv), From(w, ColDone(0)), |argv|)
  {
    forall i: nat {:trigger tbl(i)} | i < |argv| && Tables(argv)(i) ensures Moves(tbl(i), From(w, ColDone(0)), i) {
      StepTo(argv, w, ColDone(0), i);
    }
  }

  lemma DbLeads(argv: Argv, w: Walker, tbl: Parser<Tbl>, i: nat)
    requires IsWalk(argv, w)
    requires Advances(tbl, |argv|) && TblsLead(argv, w, tbl) && i + DB_SPEC_LENGTH_MIN <= |argv|
    ensures LeadsTo(w, DbName, i + 1, DbAt(argv, tbl, i), ColDone(0))
  {
    StepTo(argv, w, DbName, i + 1);
    if argv[i + 1].name {
      StepTo(argv, w, FirstTable, i + 2);
      var t := tbl(i + 2);
      if F.Matches(argv[i + 2].word, F.T, F.Table) && t.Ok? {
        TblsMove(argv, w, tbl);
        ManyMoves(tbl, Tables(argv), From(w, ColDone(0)), |argv|, [t.value], t.at);
      }
    }
  }

  lemma ConcreteBodiesLead(argv: Argv, w: Walker)
    requires IsWalk(argv, w)
    ensures BodiesLead(argv, w, Bodies(argv))
  {
    forall rows: nat, i: nat {:trigger Bodies(argv)(rows)(i)} | i < |argv|
      ensures LeadsTo(w, ColType(rows), i, Bodies(argv)(rows)(i), ColDone(rows))
    {
      BodyLeads(argv, w, rows, i);
    }
  }

  /** The parser of DB_SPECs. */
  function DbParser(argv: Argv): Parser<Db> {
    ConcreteBodiesAdvance(argv);
    DbItems(argv, Bodies(argv))
  }

  /** The verdict on the DB_SPEC whose flag stands at `i`. */
  function Judge(argv: Argv, i: nat): Verdict
    requires i < |argv|
  {
    Walk(argv, DbName, i + 1)
  }

  lemma DbSays(argv: Argv, w: Walker, tbl: Parser<Tbl>, i: nat)
    requires IsWalk(argv, w)
    requires Advances(tbl, |argv|) && TblsLead(argv, w, tbl) && i + DB_SPEC_LENGTH_MIN <= |argv|
    requires DbAt(argv, tbl, i).Ok? ==> ClosesDatabase(argv, DbAt(argv, tbl, i).at)
    ensures Bare(DbAt(argv, tbl, i)) == Report(w(DbName, i + 1))
  {
    DbLeads(argv, w, tbl, i);
    if DbAt(argv, tbl, i).Ok? {
      assert Asked(ColDone(0), DbAt(argv, tbl, i).at);
    }
  }

  lemma DbIsClosed(argv: Argv, db: Parser<Db>, spells: Relation<Db>, i: nat)
    requires DbsAgree(argv, db, spells) && i < |argv| && db(i).Ok?
    ensures ClosesDatabase(argv, db(i).at)
  {
  }

  ghost predicate IsDbAt(argv: Argv, tbl: Parser<Tbl>, db: Parser<Db>, i: nat)
    requires Advances(tbl, |argv|)
  {
    i + DB_SPEC_LENGTH_MIN <= |argv| && db(i) == DbAt(argv, tbl, i)
  }

  lemma DbIsSaid(argv: Argv, w: Walker, tbl: Parser<Tbl>, db: Parser<Db>, spells: Relation<Db>, i: nat)
    requires IsWalk(argv, w)
    requires Advances(tbl, |argv|) && TblsLead(argv, w, tbl) && DbsAgree(argv, db, spells) && IsDbAt(argv, tbl, db, i)
    ensures Bare(db(i)) == Report(w(DbName, i + 1))
  {
    if db(i).Ok? {
      DbIsClosed(argv, db, spells, i);
    }
    DbSays(argv, w, tbl, i);
  }

  lemma Walking(argv: Argv, i: nat) returns (w: Walker)
    requires i < |argv|
    ensures IsWalk(argv, w) && w(DbName, i + 1) == Judge(argv, i)
  {
    w := WalkerOf(argv);
    WalkerWalks(argv);
  }

  lemma Tbls(argv: Argv, w: Walker) returns (tbl: Parser<Tbl>)
    requires IsWalk(argv, w)
    ensures BodiesAdvance(Bodies(argv), |argv|) && tbl == TblItems(argv, Bodies(argv)) && TblsLead(argv, w, tbl)
  {
    ConcreteBodiesAdvance(argv);
    ConcreteBodiesLead(argv, w);
    tbl := TblItems(argv, Bodies(argv));
    TblItemsLead(argv, w, Bodies(argv));
  }

  lemma Dbs(argv: Argv, tbl: Parser<Tbl>, i: nat) returns (db: Parser<Db>, spells: Relation<Db>)
    requires BodiesAdvance(Bodies(argv), |argv|) && tbl == TblItems(argv, Bodies(argv)) && i + DB_SPEC_LENGTH_MIN <= |argv|
    ensures db == DbParser(argv) && DbsAgree(argv, db, spells) && IsDbAt(argv, tbl, db, i)
  {
    db, spells := DbParser(argv), SpelledDbSpecs(argv);
    ConcreteDbsAgree(argv);
  }

  lemma ParserSays(argv: Argv, i: nat)
    requires i + DB_SPEC_LENGTH_MIN <= |argv|
    ensures Bare(DbParser(argv)(i)) == Report(Judge(argv, i))
  {
    var w := Walking(argv, i);
    var tbl := Tbls(argv, w);
    var db, spells := Dbs(argv, tbl, i);
    DbIsSaid(argv, w, tbl, db, spells, i);
  }

  /** How the parse of one DB_SPEC goes by its verdict. */
  predicate Obeys<T>(argv: Argv, i: nat, r: Parse<T>, v: Verdict) {
    var short := |argv| < i + DB_SPEC_LENGTH_MIN;
    && (r.Stop? <==> short || v.RunsOut? || (v.Refused? && v.cause.Reversed?))
    && (r.Bad? <==> !short && v.Refused? && !v.cause.Reversed?)
    && (r.Bad? ==> r.at == if v.cause.SecondGroup? then v.at + 1 else v.at)
    && (r.Ok? <==> !short && v.Fits?)
    && (r.Ok? ==> r.at == v.end)
  }

  /** For every DB_SPEC: the parser ends the run if and only if fewer than eight arguments are left,
      the arguments run out inside it, or a maximum is below its minimum; it fails if and only if
      some other argument is refused, and then with the cursor there, or behind the flag of a
      second GRP_SPEC; and otherwise it accepts it to its end. */
  lemma VerdictIff(argv: Argv, i: nat)
    requires i < |argv|
    ensures Obeys(argv, i, DbParser(argv)(i), Judge(argv, i))
  {
    if i + DB_SPEC_LENGTH_MIN <= |argv| {
      ParserSays(argv, i);
    }
  }

  // ---------- where the search goes on ----------

  predicate FlagAt(argv: Argv, j: nat) {
    j < |argv| && F.Matches(argv[j].word, F.D, F.Database)
  }

  /** Only behind a GRP_SPEC flag is the cursor off the refused argument. */
  lemma {:induction false} SecondGroupIsGroup(argv: Argv, e: Expect, j: nat)
    requires j <= |argv|
    ensures var v := Walk(argv, e, j);
            v.Refused? ==> j <= v.at < |argv| && (v.cause.SecondGroup? ==> F.Is(argv[v.at].word, F.G, F.Group))
    decreases |argv| - j
  {
    if j < |argv| && Takes(e, argv[j]).Some? {
      SecondGroupIsGroup(argv, Takes(e, argv[j]).value, j + 1);
    }
  }

  lemma PassedOverIff(argv: Argv, f: nat, at: nat)
    requires f < |argv| && (at == f || (at == f + 1 && !FlagAt(argv, f)))
    ensures NextDatabase(argv, at + 1) == NextDatabase(argv, f) <==> !FlagAt(argv, at)
  {
    assert NextDatabase(argv, f) == NextDatabase(argv, at);
  }

  lemma ResumesFor<T>(argv: Argv, i: nat, r: Parse<T>)
    requires i < |argv| && r.Bad? && Obeys(argv, i, r, Judge(argv, i))
    ensures var v := Judge(argv, i);
            v.Refused? && (NextDatabase(argv, r.at + 1) == NextDatabase(argv, v.at) <==> !FlagAt(argv, r.at))
  {
    SecondGroupIsGroup(argv, DbName, i + 1);
    PassedOverIff(argv, Judge(argv, i).at, r.at);
  }

  /** After a failure the search goes on at the first database flag that was not consumed, if and
      only if there is none at the refused argument, or right behind the flag of a second GRP_SPEC:
      one that stands there is passed over. */
  lemma ResumesIff(argv: Argv, i: nat)
    requires i < |argv| && DbParser(argv)(i).Bad?
    ensures var v, at := Judge(argv, i), DbParser(argv)(i).at;
            v.Refused? && (NextDatabase(argv, at + 1) == NextDatabase(argv, v.at) <==> !FlagAt(argv, at))
  {
    VerdictIff(argv, i);
    ResumesFor(argv, i, DbParser(argv)(i));
  }

  // ---------- what a run accepts ----------

  /** The arguments from `p` to `k` are a whole DB_SPEC, which is over there. */
  ghost predicate Stretch(argv: Argv, spells: Relation<Db>, p: nat, k: nat, d: Db) {
    p < k <= |argv| && ClosesDatabase(argv, k) && spells(p, k, d)
  }

  /** Where the search arrives after a refused argument; None if the run is over. */
  function Onward(argv: Argv, p: nat): (next: Option<nat>)
    requires p < |argv|
    ensures next.Some? ==> p < next.value <= |argv|
  {
    SecondGroupIsGroup(argv, DbName, p + 1);
    match Judge(argv, p)
    case Refused(at, Unexpected) => Some(NextDatabase(argv, at + 1))
    case Refused(at, SecondGroup) => Some(NextDatabase(argv, at + 2))
    case _ => None
  }

  /** From `p` on: every DB_SPEC that begins where the search arrives. */
  ghost function Harvest(argv: Argv, spells: Relation<Db>, p: nat): seq<Db>
    decreases |argv| - p
  {
    if p >= |argv| then []
    else if exists k: nat, d: Db :: Stretch(argv, spells, p, k, d) then
      var k: nat, d: Db :| Stretch(argv, spells, p, k, d);
      [d] + Harvest(argv, spells, k)
    else if |argv| < p + DB_SPEC_LENGTH_MIN || Onward(argv, p).None? then []
    else Harvest(argv, spells, Onward(argv, p).value)
  }

  ghost predicate IsJudged(argv: Argv, db: Parser<Db>) {
    forall i: nat {:trigger db(i)} :: i < |argv| ==> Obeys(argv, i, db(i), Judge(argv, i))
  }

  lemma StretchIff(argv: Argv, db: Parser<Db>, spells: Relation<Db>, p: nat, k: nat, d: Db)
    requires DbsAgree(argv, db, spells) && p < |argv|
    ensures Stretch(argv, spells, p, k, d) <==> db(p) == Ok(d, k)
  {
    assert ClosesDb(argv)(k) <==> ClosesDatabase(argv, k);
  }

  lemma GoodHarvest(argv: Argv, db: Parser<Db>, spells: Relation<Db>, i: nat, d: Db, at: nat)
    requires DbsAgree(argv, db, spells) && i < |argv| && db(i) == Ok(d, at)
    ensures i < at <= |argv| && Harvest(argv, spells, i) == [d] + Harvest(argv, spells, at)
  {
    StretchIff(argv, db, spells, i, at, d);
    forall k: nat, e: Db | Stretch(argv, spells, i, k, e) ensures k == at && e == d {
      StretchIff(argv, db, spells, i, k, e);
    }
  }

  lemma BadHarvest(argv: Argv, db: Parser<Db>, spells: Relation<Db>, i: nat)
    requires DbsAgree(argv, db, spells) && i < |argv| && !db(i).Ok? && Obeys(argv, i, db(i), Judge(argv, i))
    ensures db(i).Bad? ==> Harvest(argv, spells, i) == Harvest(argv, spells, NextDatabase(argv, db(i).at + 1))
    ensures db(i).Stop? ==> Harvest(argv, spells, i) == []
  {
    forall k: nat, e: Db ensures !Stretch(argv, spells, i, k, e) {
      StretchIff(argv, db, spells, i, k, e);
    }
  }

  ghost predicate Harvests(argv: Argv, r: Parse<Db>, h: nat -> seq<Db>, i: nat) {
    match r
    case Ok(d, at) => h(i) == [d] + h(at)
    case Bad(at) => h(i) == h(NextDatabase(argv, at + 1))
    case Stop => h(i) == []
  }

  ghost predicate IsHarvest(argv: Argv, db: Parser<Db>, h: nat -> seq<Db>) {
    && (forall i: nat {:trigger h(i)} :: i >= |argv| ==> h(i) == [])
    && forall i: nat {:trigger db(i)} :: i < |argv| ==> Harvests(argv, db(i), h, i)
  }

  lemma {:induction false} DbsHarvested(argv: Argv, db: Parser<Db>, h: nat -> seq<Db>, done: seq<Db>, clean: bool, i: nat)
    requires Advances(db, |argv|) && IsHarvest(argv, db, h)
    ensures DbsAt(argv, db, done, clean, i).dbs == done + h(i)
    decreases |argv| - i
  {
    if i < |argv| {
      assert Harvests(argv, db(i), h, i);
      match db(i)
      case Ok(d, at) =>
        DbsHarvested(argv, db, h, done + [d], clean, at);
        assert done + [d] + h(at) == done + ([d] + h(at));
      case Bad(at) =>
        DbsHarvested(argv, db, h, done, false, NextDatabase(argv, at + 1));
      case Stop =>
    }
  }

  lemma HarvestIs(argv: Argv, db: Parser<Db>, spells: Relation<Db>) returns (h: nat -> seq<Db>)
    requires DbsAgree(argv, db, spells) && IsJudged(argv, db)
    ensures IsHarvest(argv, db, h) && forall i: nat :: h(i) == Harvest(argv, spells, i)
  {
    h := (i: nat) => Harvest(argv, spells, i);
    forall i: nat {:trigger db(i)} | i < |argv| ensures Harvests(argv, db(i), h, i) {
      assert Obeys(argv, i, db(i), Judge(argv, i));
      if db(i).Ok? {
        GoodHarvest(argv, db, spells, i, db(i).value, db(i).at);
      } else {
        BadHarvest(argv, db, spells, i);
      }
    }
  }

  lemma RunHarvested(argv: Argv, db: Parser<Db>, h: nat -> seq<Db>)
    requires Advances(db, |argv|) && IsHarvest(argv, db, h) && |argv| >= DB_SPEC_LENGTH_MIN
    ensures RunWith(argv, db).dbs == h(if FlagAt(argv, 0) then 0 else NextDatabase(argv, 1))
  {
    if FlagAt(argv, 0) {
      DbsHarvested(argv, db, h, [], true, 0);
    } else {
      DbsHarvested(argv, db, h, [], false, NextDatabase(argv, 1));
    }
  }

  /** For every command line: the accepted databases are all the DB_SPECs that begin where the
      search arrives, each at the end of the one before or at the next database flag behind a
      refused argument, and no others. */
  lemma AcceptedAreHarvested(argv: Argv)
    requires |argv| >= DB_SPEC_LENGTH_MIN
    ensures Run(argv).dbs ==
            Harvest(argv, SpelledDbSpecs(argv), if FlagAt(argv, 0) then 0 else NextDatabase(argv, 1))
  {
    ConcreteDbsAgree(argv);
    var db := DbParser(argv);
    forall i: nat {:trigger db(i)} | i < |argv| ensures Obeys(argv, i, db(i), Judge(argv, i)) {
      VerdictIff(argv, i);
    }
    var h := HarvestIs(argv, db, SpelledDbSpecs(argv));
    RunHarvested(argv, db, h);
  }
}
