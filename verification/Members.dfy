/** The lower half of the generate grammar, from COL_TYPE to a whole column body, as a pure
    recursive parser over argument positions. */
module Members {
  import opened Octets
  import opened Numbers
  import opened Specs
  import opened Tokens
  import opened Parsing
  import F = Flags

  type Argv = seq<Token>

  /** The cursor may stand here once a column or JOIN is complete. */
  predicate Follows(argv: Argv, inJoin: bool, j: nat)
    requires j <= |argv|
  {
    || j == |argv|
    || F.Is(argv[j].word, F.C, F.Column) || F.Is(argv[j].word, F.T, F.Table) || F.Is(argv[j].word, F.D, F.Database)
    || (inJoin && argv[j].word.Plus?)
  }

  function Number(s: Sign, t: Token): Option<int> {
    if s.Signed? then t.signed else t.unsigned
  }

  function IntegerFixed(argv: Argv, s: Sign, j: nat): (r: Parse<Kind>)
    requires j <= |argv|
    ensures Forward(r, j, |argv|)
  {
    if j == |argv| then Stop
    else if Number(s, argv[j]).None? then Bad(j)
    else Ok(IntFixed(s, Number(s, argv[j]).value), j + 1)
  }

  function RandomFrom(argv: Argv, s: Sign, j: nat): (r: Parse<Kind>)
    requires j <= |argv|
    ensures Forward(r, j, |argv|)
  {
    if j == |argv| then Stop
    else if Number(s, argv[j]).None? then Bad(j)
    else Ok(IntFrom(s, Number(s, argv[j]).value), j + 1)
  }

  function RandomUpto(argv: Argv, s: Sign, j: nat): (r: Parse<Kind>)
    requires j <= |argv|
    ensures Forward(r, j, |argv|)
  {
    if j == |argv| then Stop
    else if Number(s, argv[j]).None? then Bad(j)
    else Ok(IntUpto(s, Number(s, argv[j]).value), j + 1)
  }

  /** A maximum below the minimum ends the whole parse instead of skipping the DB_SPEC. */
  function RandomRange(argv: Argv, s: Sign, j: nat): (r: Parse<Kind>)
    requires j <= |argv|
    ensures Forward(r, j, |argv|)
  {
    if j == |argv| then Stop
    else if Number(s, argv[j]).None? then Bad(j)
    else if j + 1 == |argv| then Stop
    else if Number(s, argv[j + 1]).None? then Bad(j + 1)
    else
      var low, high := Number(s, argv[j]).value, Number(s, argv[j + 1]).value;
      if high < low then Stop else Ok(IntRange(s, low, high), j + 2)
  }

  function RandomQualifier(argv: Argv, s: Sign, j: nat): (r: Parse<Kind>)
    requires j <= |argv|
    ensures Forward(r, j, |argv|)
  {
    if j == |argv| then Ok(IntRandom(s), j)
    else if F.Is(argv[j].word, F.F, F.From) then RandomFrom(argv, s, j + 1)
    else if F.Is(argv[j].word, F.U, F.Upto) then RandomUpto(argv, s, j + 1)
    else if F.Is(argv[j].word, F.R, F.Range) then RandomRange(argv, s, j + 1)
    else Ok(IntRandom(s), j)
  }

  function IntegerQualifier(argv: Argv, s: Sign, j: nat): (r: Parse<Kind>)
    requires j <= |argv|
    ensures Forward(r, j, |argv|)
  {
    if j == |argv| then Ok(IntDefault(s), j)
    else if F.Is(argv[j].word, F.U, F.Unique) then Ok(IntUnique(s), j + 1)
    else if F.Is(argv[j].word, F.F, F.Fixed) then IntegerFixed(argv, s, j + 1)
    else if F.Is(argv[j].word, F.R, F.Random) then RandomQualifier(argv, s, j + 1)
    else Ok(IntDefault(s), j)
  }

  function BaseString(argv: Argv, j: nat): (r: Parse<Kind>)
    requires j <= |argv|
    ensures Forward(r, j, |argv|)
  {
    if j == |argv| then Stop
    else if argv[j].base then Ok(StrUnique(argv[j].text), j + 1)
    else Bad(j)
  }

  function FixedString(argv: Argv, j: nat): (r: Parse<Kind>)
    requires j <= |argv|
    ensures Forward(r, j, |argv|)
  {
    if j == |argv| then Stop
    else if argv[j].fixed then Ok(StrFixed(argv[j].text), j + 1)
    else Bad(j)
  }

  function HashString(argv: Argv, j: nat): (r: Parse<Kind>)
    requires j <= |argv|
    ensures Forward(r, j, |argv|)
  {
    if j == |argv| then Stop
    else if HashLength(argv[j].unsigned).None? then Bad(j)
    else Ok(StrHash(HashLength(argv[j].unsigned).value), j + 1)
  }

  /** The qualifiers that take no argument. */
  function StringWord(argv: Argv, j: nat): (r: Parse<Kind>)
    requires j < |argv|
    ensures Forward(r, j, |argv|)
  {
    if F.Is(argv[j].word, F.UU, F.Uuid) then Ok(StrUuid, j + 1)
    else if F.Is(argv[j].word, F.N1, F.NamesFirst) then Ok(StrNamesFirst, j + 1)
    else if F.Is(argv[j].word, F.NL, F.NamesLast) then Ok(StrNamesLast, j + 1)
    else if F.Is(argv[j].word, F.NF, F.NamesFull) then Ok(StrNamesFull, j + 1)
    else Ok(StrDefault, j)
  }

  function StringQualifier(argv: Argv, j: nat): (r: Parse<Kind>)
    requires j <= |argv|
    ensures Forward(r, j, |argv|)
  {
    if j == |argv| then Ok(StrDefault, j)
    else if F.Is(argv[j].word, F.U, F.Unique) then BaseString(argv, j + 1)
    else if F.Is(argv[j].word, F.F, F.Fixed) then FixedString(argv, j + 1)
    else if F.Is(argv[j].word, F.H, F.Hash) then HashString(argv, j + 1)
    else StringWord(argv, j)
  }

  function TimeQualifier(argv: Argv, clock: Clock, j: nat): (r: Parse<Kind>)
    requires j <= |argv|
    ensures Forward(r, j, |argv|)
  {
    if j == |argv| then Ok(TimeDefault(clock), j)
    else if F.Is(argv[j].word, F.F, F.Fixed) then Ok(TimeFixed(clock), j + 1)
    else if F.Is(argv[j].word, F.U, F.Unique) then Ok(TimeUnique(clock), j + 1)
    else Ok(TimeDefault(clock), j)
  }

  /** COL_TYPE [COL_TYPE_Q], JOINs aside. */
  function KindAt(argv: Argv, i: nat): (r: Parse<Kind>)
    requires i < |argv|
    ensures Forward(r, i, |argv|) && (r.Ok? ==> i < r.at)
  {
    if F.Is(argv[i].word, F.I, F.Integer) then IntegerQualifier(argv, Signed, i + 1)
    else if F.Is(argv[i].word, F.U, F.Unsigned) then IntegerQualifier(argv, Unsigned, i + 1)
    else if F.Is(argv[i].word, F.S, F.String) then StringQualifier(argv, i + 1)
    else if F.Is(argv[i].word, F.TS, F.Timestamp) then TimeQualifier(argv, Timestamp, i + 1)
    else if F.Is(argv[i].word, F.DT, F.Datetime) then TimeQualifier(argv, Datetime, i + 1)
    else Bad(i)
  }

  /** After the partition type of a GRP_SPEC: a second GRP_SPEC moves the cursor one further
      before the search for the next DB_SPEC starts, possibly to the end of the arguments. */
  function AfterPart(argv: Argv, inJoin: bool, m: Member, j: nat): (r: Parse<Member>)
    requires j <= |argv|
    ensures Forward(r, j, |argv|)
  {
    if Follows(argv, inJoin, j) then Ok(m, j)
    else if F.Is(argv[j].word, F.G, F.Group) then Bad(j + 1)
    else Bad(j)
  }

  /** [PART_TYPE] */
  function PartType(argv: Argv, inJoin: bool, k: Kind, count: nat, j: nat): (r: Parse<Member>)
    requires j <= |argv|
    ensures Forward(r, j, |argv|)
  {
    if j < |argv| && F.Is(argv[j].word, F.E, F.Even) then AfterPart(argv, inJoin, Member(k, Some(Grp(count, Even))), j + 1)
    else if j < |argv| && F.Is(argv[j].word, F.L, F.Linear) then AfterPart(argv, inJoin, Member(k, Some(Grp(count, Linear))), j + 1)
    else AfterPart(argv, inJoin, Member(k, Some(Grp(count, Even))), j)
  }

  /** GRP_COUNT [PART_TYPE] */
  function GrpSpec(argv: Argv, rows: nat, inJoin: bool, k: Kind, j: nat): (r: Parse<Member>)
    requires j <= |argv|
    ensures Forward(r, j, |argv|)
  {
    if j == |argv| then Stop
    else if GrpCount(argv[j].unsigned, rows).None? then Bad(j)
    else PartType(argv, inJoin, k, GrpCount(argv[j].unsigned, rows).value, j + 1)
  }

  /** [GRP_SPEC] and the flag that closes a column or JOIN. */
  function Tail(argv: Argv, rows: nat, inJoin: bool, k: Kind, j: nat): (r: Parse<Member>)
    requires j <= |argv|
    ensures Forward(r, j, |argv|)
  {
    if Follows(argv, inJoin, j) then Ok(Member(k, None), j)
    else if F.Is(argv[j].word, F.G, F.Group) && !IsFixedData(k) then GrpSpec(argv, rows, inJoin, k, j + 1)
    else Bad(j)
  }

  function ThenTail(argv: Argv, rows: nat, inJoin: bool, k: Parse<Kind>): (r: Parse<Member>)
    requires k.Ok? ==> k.at <= |argv|
    ensures k.Ok? ==> Forward(r, k.at, |argv|)
  {
    match k
    case Ok(kind, at) => Tail(argv, rows, inJoin, kind, at)
    case Bad(at) => Bad(at)
    case Stop => Stop
  }

  function PlainAt(argv: Argv, rows: nat, i: nat): (r: Parse<Member>)
    requires i < |argv|
    ensures Forward(r, i, |argv|) && (r.Ok? ==> i < r.at)
  {
    ThenTail(argv, rows, false, KindAt(argv, i))
  }

  /** One JOIN: filler text unless it starts with a dash. */
  function JoinAt(argv: Argv, rows: nat, i: nat): (r: Parse<Member>)
    requires i < |argv|
    ensures Forward(r, i, |argv|) && (r.Ok? ==> i < r.at)
  {
    if !F.StartsWithDash(argv[i].word) then ThenTail(argv, rows, true, FixedString(argv, i))
    else ThenTail(argv, rows, true, KindAt(argv, i))
  }

  function JoinParser(argv: Argv, rows: nat): (join: Parser<Member>)
    ensures Advances(join, |argv|)
  {
    (i: nat) => if i < |argv| then JoinAt(argv, rows, i) else Stop
  }

  /** `+ JOIN`, with the plus sign at the position given. */
  function PlusItems(argv: Argv, join: Parser<Member>): (item: Parser<Member>)
    requires Advances(join, |argv|)
    ensures Advances(item, |argv|)
  {
    (i: nat) => if i + 1 < |argv| then join(i + 1) else Stop
  }

  function JoinItems(argv: Argv, rows: nat): Parser<Member> {
    PlusItems(argv, JoinParser(argv, rows))
  }

  function Pluses(argv: Argv): nat -> bool {
    (i: nat) => i < |argv| && argv[i].word.Plus?
  }

  /** The JOINs still to come once `done` are parsed. */
  function JoinsAt(argv: Argv, join: Parser<Member>, done: seq<Member>, j: nat): (r: Parse<seq<Member>>)
    requires Advances(join, |argv|) && j <= |argv|
    ensures Forward(r, j, |argv|)
  {
    Many(PlusItems(argv, join), Pluses(argv), |argv|, done, j)
  }

  function JoinSpec(argv: Argv, join: Parser<Member>, j: nat): (r: Parse<Body>)
    requires Advances(join, |argv|) && j <= |argv|
    ensures Forward(r, j, |argv|)
  {
    if j == |argv| then Stop
    else
      var (m, at) :- join(j);
      var (ms, end) :- JoinsAt(argv, join, [m], at);
      Ok(Joined(ms), end)
  }

  function BodyAt(argv: Argv, rows: nat, i: nat): (r: Parse<Body>)
    requires i < |argv|
    ensures Forward(r, i, |argv|) && (r.Ok? ==> i < r.at)
  {
    if F.Is(argv[i].word, F.S, F.String) && i + 1 < |argv| && F.Is(argv[i + 1].word, F.J, F.Join) then
      JoinSpec(argv, JoinParser(argv, rows), i + 2)
    else
      var (m, at) :- PlainAt(argv, rows, i);
      Ok(Plain(m), at)
  }
}
