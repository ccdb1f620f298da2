/** Command lines for given databases, in every style the grammar leaves open, and the round trip:
    parsing what was printed gives the databases back. */
module Printer {
  import opened Octets
  import opened Numbers
  import opened Specs
  import opened Tokens
  import opened Parsing
  import opened Members
  import opened BodySpelling
  import opened Grammar
  import opened Spelling
  import F = Flags

  /** The content of one argument. */
  datatype Piece =
    | Flg(short: F.Name, long: F.Flag)
    | Int(sign: Sign, value: int)
    | Count(count: nat)
    | Id(text: Arg)
    | Base(text: Arg)
    | Fixed(text: Arg)
    | Bare(text: Arg)
    | PlusSign

  /** The free choices, made anew at every position of the command line: the long form of a flag,
      an even partition in words, and FIXED_STRING of a JOIN without `-s -f`. */
  datatype Style = Style(long: nat -> bool, even: nat -> bool, bare: nat -> bool)

  function PieceText(p: Piece, long: bool): Arg {
    match p
    case Flg(n, f) => if long then F.LongText(f) else F.ShortText(n)
    case Int(_, v) => Text(v)
    case Count(n) => Decimal(n)
    case Id(a) => a
    case Base(a) => a
    case Fixed(a) => a
    case Bare(a) => a
    case PlusSign => "+"
  }

  function IntegerPiece(s: Sign): Piece {
    if s.Signed? then Flg(F.I, F.Integer) else Flg(F.U, F.Unsigned)
  }

  function ClockPiece(c: Clock): Piece {
    if c.Timestamp? then Flg(F.TS, F.Timestamp) else Flg(F.DT, F.Datetime)
  }

  function RandomPieces(s: Sign): seq<Piece> {
    [IntegerPiece(s), Flg(F.R, F.Random)]
  }

  function StringPieces(short: F.Name, long: F.Flag): seq<Piece> {
    [Flg(F.S, F.String), Flg(short, long)]
  }

  function KindPieces(k: Kind): (ps: seq<Piece>)
    ensures |ps| == KindLength(k)
  {
    match k
    case IntDefault(s) => [IntegerPiece(s)]
    case IntUnique(s) => [IntegerPiece(s), Flg(F.U, F.Unique)]
    case IntFixed(s, v) => [IntegerPiece(s), Flg(F.F, F.Fixed), Int(s, v)]
    case IntRandom(s) => RandomPieces(s)
    case IntFrom(s, low) => RandomPieces(s) + [Flg(F.F, F.From), Int(s, low)]
    case IntUpto(s, high) => RandomPieces(s) + [Flg(F.U, F.Upto), Int(s, high)]
    case IntRange(s, low, high) => RandomPieces(s) + [Flg(F.R, F.Range), Int(s, low), Int(s, high)]
    case StrDefault => [Flg(F.S, F.String)]
    case StrUnique(base) => StringPieces(F.U, F.Unique) + [Base(base)]
    case StrFixed(text) => StringPieces(F.F, F.Fixed) + [Fixed(text)]
    case StrUuid => StringPieces(F.UU, F.Uuid)
    case StrHash(n) => StringPieces(F.H, F.Hash) + [Count(n)]
    case StrNamesFirst => StringPieces(F.N1, F.NamesFirst)
    case StrNamesLast => StringPieces(F.NL, F.NamesLast)
    case StrNamesFull => StringPieces(F.NF, F.NamesFull)
    case TimeDefault(c) => [ClockPiece(c)]
    case TimeUnique(c) => [ClockPiece(c), Flg(F.U, F.Unique)]
    case TimeFixed(c) => [ClockPiece(c), Flg(F.F, F.Fixed)]
  }

  function GrpPieces(st: Style, i: nat, g: Grp): seq<Piece> {
    [Flg(F.G, F.Group), Count(g.count)] +
    if g.part.Linear? then [Flg(F.L, F.Linear)] else if st.even(i + 2) then [Flg(F.E, F.Even)] else []
  }

  function TailPieces(st: Style, i: nat, g: Option<Grp>): seq<Piece> {
    if g.None? then [] else GrpPieces(st, i, g.value)
  }

  /** Filler text can do without `-s -f` unless it starts with a dash. */
  predicate MayBeBare(m: Member) {
    m.kind.StrFixed? && m.grp.None? && OctetAt(m.kind.text, 0) != '-' as int
  }

  function MemberPieces(st: Style, inJoin: bool, i: nat, m: Member): (ps: seq<Piece>)
    ensures |ps| >= 1
  {
    if inJoin && MayBeBare(m) && st.bare(i) then [Bare(m.kind.text)]
    else KindPieces(m.kind) + TailPieces(st, i + KindLength(m.kind), m.grp)
  }

  /** Prints a value at a position. */
  type Print<!T> = (nat, T) -> seq<Piece>

  function PrintMany<T>(one: Print<T>, i: nat, xs: seq<T>): (ps: seq<Piece>)
    ensures xs != [] ==> |ps| >= |one(i, xs[0])|
    decreases |xs|
  {
    if xs == [] then [] else one(i, xs[0]) + PrintMany(one, i + |one(i, xs[0])|, xs[1..])
  }

  function MemberPrint(st: Style, inJoin: bool): Print<Member> {
    (i: nat, m: Member) => MemberPieces(st, inJoin, i, m)
  }

  function PlusPrint(join: Print<Member>): Print<Member> {
    (i: nat, m: Member) => [PlusSign] + join(i + 1, m)
  }

  /** Only the first JOIN has no plus sign before it. */
  function JoinPieces(join: Print<Member>, i: nat, ms: seq<Member>): (ps: seq<Piece>)
    requires ms != []
    ensures |ps| >= 2
  {
    var first := join(i + 2, ms[0]);
    StringPieces(F.J, F.Join) + (first + PrintMany(PlusPrint(join), i + 2 + |first|, ms[1..]))
  }

  function BodyPrint(plain: Print<Member>, join: Print<Member>): Print<Body> {
    (i: nat, b: Body) =>
      if b.Plain? then plain(i, b.member)
      else if b.members == [] then StringPieces(F.J, F.Join)
      else JoinPieces(join, i, b.members)
  }

  function ColPrint(body: Print<Body>): Print<Col> {
    (i: nat, c: Col) => [Flg(F.C, F.Column), Id(c.name)] + body(i + 2, c.body)
  }

  function TblPrint(col: Print<Col>): Print<Tbl> {
    (i: nat, t: Tbl) => [Flg(F.T, F.Table), Id(t.name), Count(t.rows)] + PrintMany(col, i + 3, t.cols)
  }

  function DbPrint(tbl: Print<Tbl>): Print<Db> {
    (i: nat, d: Db) => [Flg(F.D, F.Database), Id(d.name)] + PrintMany(tbl, i + 2, d.tbls)
  }

  function CommandPieces(st: Style, ds: seq<Db>): seq<Piece> {
    var body := BodyPrint(MemberPrint(st, false), MemberPrint(st, true));
    PrintMany(DbPrint(TblPrint(ColPrint(body))), 0, ds)
  }

  function Texts(ps: seq<Piece>, long: nat -> bool): seq<Arg> {
    seq(|ps|, i requires 0 <= i < |ps| => PieceText(ps[i], long(i)))
  }

  /** The command line for `ds`. */
  function CommandArgs(st: Style, ds: seq<Db>): seq<Arg> {
    Texts(CommandPieces(st, ds), st.long)
  }

  // ---------- one argument ----------

  /** What the parser sees of an argument that holds a valid piece. */
  predicate Reads(t: Token, p: Piece) {
    match p
    case Flg(n, f) => F.Is(t.word, n, f) && F.StartsWithDash(t.word)
    case Int(s, v) => InRange(s, v) ==> Number(s, t) == Some(v)
    case Count(n) => n <= UINT64_MAX ==> t.unsigned == Some(n)
    case Id(a) => IsName(a) ==> t.name && t.text == a
    case Base(a) => IsBaseString(a) ==> t.base && t.text == a
    case Fixed(a) => IsFixedString(a) ==> t.fixed && t.text == a
    case Bare(a) => IsFixedString(a) && OctetAt(a, 0) != '-' as int ==> t.fixed && t.text == a && !F.StartsWithDash(t.word)
    case PlusSign => t.word.Plus?
  }

  lemma BareIsNoFlag(a: Arg)
    requires OctetAt(a, 0) != '-' as int
    ensures !F.StartsWithDash(F.Classify(a))
  {
  }

  lemma FlagIsRead(n: F.Name, f: F.Flag, long: bool)
    ensures F.Classify(PieceText(Flg(n, f), long)) == if long then F.Long(f) else F.Short(n)
  {
    F.ClassifiesShort(n);
    F.ClassifiesLong(f);
  }

  lemma PieceIsRead(p: Piece, long: bool)
    ensures Reads(Lex(PieceText(p, long)), p)
  {
    match p
    case Flg(n, f) => FlagIsRead(n, f, long);
    case Int(s, v) =>
      if InRange(s, v) && s.Signed? {
        ParseIntText(v);
      } else if InRange(s, v) {
        ParseUintDecimal(v);
      }
    case Count(n) =>
      if n <= UINT64_MAX {
        ParseUintDecimal(n);
      }
    case Bare(a) =>
      if OctetAt(a, 0) != '-' as int {
        BareIsNoFlag(a);
      }
    case _ =>
  }

  // ---------- what is printed is spelled ----------

  predicate Occurs(argv: Argv, i: nat, ps: seq<Piece>)
    decreases |ps|
  {
    i + |ps| <= |argv| && (ps == [] || (Reads(argv[i], ps[0]) && Occurs(argv, i + 1, ps[1..])))
  }

  lemma {:induction false} OccursSplit(argv: Argv, i: nat, p: seq<Piece>, q: seq<Piece>)
    requires Occurs(argv, i, p + q)
    ensures Occurs(argv, i, p) && Occurs(argv, i + |p|, q)
    decreases |p|
  {
    if p == [] {
      assert p + q == q;
    } else {
      assert (p + q)[1..] == p[1..] + q;
      OccursSplit(argv, i + 1, p[1..], q);
    }
  }

  lemma {:induction false} OccursAt(argv: Argv, i: nat, ps: seq<Piece>, k: nat)
    requires Occurs(argv, i, ps) && k < |ps|
    ensures i + k < |argv| && Reads(argv[i + k], ps[k])
    decreases k
  {
    if k > 0 {
      OccursAt(argv, i + 1, ps[1..], k - 1);
    }
  }

  lemma KindIsSpelled(argv: Argv, i: nat, k: Kind)
    requires KindOk(k) && Occurs(argv, i, KindPieces(k))
    ensures KindSpelled(argv, i, k) && F.StartsWithDash(argv[i].word)
  {
    var ps := KindPieces(k);
    OccursAt(argv, i, ps, 0);
    if |ps| > 1 {
      OccursAt(argv, i, ps, 1);
    }
    if |ps| > 2 {
      OccursAt(argv, i, ps, 2);
    }
    if |ps| > 3 {
      OccursAt(argv, i, ps, 3);
    }
    if |ps| > 4 {
      OccursAt(argv, i, ps, 4);
    }
  }

  lemma GrpIsSpelled(argv: Argv, st: Style, rows: nat, i: nat, g: Grp)
    requires 1 <= g.count <= rows <= UPTO_MAX && Occurs(argv, i, GrpPieces(st, i, g))
    ensures GrpSpelled(argv, rows, i, i + |GrpPieces(st, i, g)|, g)
  {
    var ps := GrpPieces(st, i, g);
    OccursAt(argv, i, ps, 0);
    OccursAt(argv, i, ps, 1);
    if |ps| > 2 {
      OccursAt(argv, i, ps, 2);
    }
  }

  lemma MemberIsSpelled(argv: Argv, st: Style, rows: nat, inJoin: bool, i: nat, m: Member)
    requires MemberOk(m, rows) && rows <= UPTO_MAX && Occurs(argv, i, MemberPieces(st, inJoin, i, m))
    ensures MemberSpelled(argv, rows, inJoin, i, i + |MemberPieces(st, inJoin, i, m)|, m)
  {
    if inJoin && MayBeBare(m) && st.bare(i) {
      OccursAt(argv, i, MemberPieces(st, inJoin, i, m), 0);
    } else {
      OccursSplit(argv, i, KindPieces(m.kind), TailPieces(st, i + KindLength(m.kind), m.grp));
      KindIsSpelled(argv, i, m.kind);
      if m.grp.Some? {
        GrpIsSpelled(argv, st, rows, i + KindLength(m.kind), m.grp.value);
      }
    }
  }

  /** Printed at `i`, the value stands behind what starts it and is spelled there. */
  ghost predicate SpellsAt<T>(argv: Argv, one: Print<T>, good: T -> bool, spells: Relation<T>, starts: nat -> bool,
                              i: nat, x: T) {
    good(x) && Occurs(argv, i, one(i, x)) ==> i < |argv| && starts(i) && spells(i, i + |one(i, x)|, x)
  }

  ghost predicate PrintSpells<T(!new)>(argv: Argv, one: Print<T>, good: T -> bool, spells: Relation<T>, starts: nat -> bool) {
    forall i: nat, x: T {:trigger one(i, x)} :: SpellsAt(argv, one, good, spells, starts, i, x)
  }

  lemma {:induction false} ManyIsSpelled<T(!new)>(argv: Argv, one: Print<T>, good: T -> bool, spells: Relation<T>,
                                                  starts: nat -> bool, i: nat, xs: seq<T>)
    requires PrintSpells(argv, one, good, spells, starts)
    requires (forall x <- xs :: good(x)) && Occurs(argv, i, PrintMany(one, i, xs))
    ensures ManySpelled(spells, starts, |argv|, i, i + |PrintMany(one, i, xs)|, xs)
    decreases |xs|
  {
    if xs != [] {
      var next := i + |one(i, xs[0])|;
      OccursSplit(argv, i, one(i, xs[0]), PrintMany(one, next, xs[1..]));
      ManyIsSpelled(argv, one, good, spells, starts, next, xs[1..]);
      assert spells(i, next, xs[0]);
    }
  }

  /** The same, with the first item taken off. */
  lemma FirstIsSpelled<T(!new)>(argv: Argv, one: Print<T>, good: T -> bool, spells: Relation<T>, starts: nat -> bool,
                                i: nat, xs: seq<T>) returns (k: nat)
    requires PrintSpells(argv, one, good, spells, starts)
    requires (forall x <- xs :: good(x)) && Occurs(argv, i, PrintMany(one, i, xs)) && xs != []
    ensures i < |argv| && starts(i) && spells(i, k, xs[0])
    ensures ManySpelled(spells, starts, |argv|, k, i + |PrintMany(one, i, xs)|, xs[1..])
  {
    k := i + |one(i, xs[0])|;
    OccursSplit(argv, i, one(i, xs[0]), PrintMany(one, k, xs[1..]));
    ManyIsSpelled(argv, one, good, spells, starts, k, xs[1..]);
  }

  /** What the members of a table with so many rows print is spelled. */
  ghost predicate MemberPrintSpells(argv: Argv, member: Print<Member>, spells: Relation<Member>, rows: nat) {
    forall i: nat, m: Member {:trigger member(i, m)} ::
      MemberOk(m, rows) && Occurs(argv, i, member(i, m)) ==> |member(i, m)| >= 1 && spells(i, i + |member(i, m)|, m)
  }

  lemma MembersPrint(argv: Argv, st: Style, rows: nat, inJoin: bool)
    requires rows <= UPTO_MAX
    ensures MemberPrintSpells(argv, MemberPrint(st, inJoin), SpelledMembers(argv, rows, inJoin), rows)
  {
    var member, spells := MemberPrint(st, inJoin), SpelledMembers(argv, rows, inJoin);
    forall i: nat, m: Member {:trigger member(i, m)} | MemberOk(m, rows) && Occurs(argv, i, member(i, m))
      ensures spells(i, i + |member(i, m)|, m)
    {
      MemberIsSpelled(argv, st, rows, inJoin, i, m);
    }
  }

  lemma PlusPrinted(argv: Argv, join: Print<Member>, i: nat, m: Member)
    requires Occurs(argv, i, PlusPrint(join)(i, m))
    ensures Pluses(argv)(i) && Occurs(argv, i + 1, join(i + 1, m)) && |PlusPrint(join)(i, m)| == 1 + |join(i + 1, m)|
  {
    OccursSplit(argv, i, [PlusSign], join(i + 1, m));
    OccursAt(argv, i, [PlusSign], 0);
  }

  lemma PlusesPrint(argv: Argv, join: Print<Member>, spells: Relation<Member>, rows: nat)
    requires MemberPrintSpells(argv, join, spells, rows)
    ensures PrintSpells(argv, PlusPrint(join), OkMember(rows), AfterPlus(spells), Pluses(argv))
  {
    var one := PlusPrint(join);
    forall i: nat, m: Member ensures SpellsAt(argv, one, OkMember(rows), AfterPlus(spells), Pluses(argv), i, m) {
      if MemberOk(m, rows) && Occurs(argv, i, one(i, m)) {
        PlusPrinted(argv, join, i, m);
      }
    }
  }

  lemma JoinPrinted(argv: Argv, i: nat, first: seq<Piece>, more: seq<Piece>)
    requires Occurs(argv, i, StringPieces(F.J, F.Join) + (first + more)) && |first| >= 1
    ensures i + 2 < |argv| && F.Is(argv[i].word, F.S, F.String) && F.Is(argv[i + 1].word, F.J, F.Join)
    ensures Occurs(argv, i + 2, first) && Occurs(argv, i + 2 + |first|, more)
  {
    var head := StringPieces(F.J, F.Join);
    OccursSplit(argv, i, head, first + more);
    OccursSplit(argv, i + 2, first, more);
    OccursAt(argv, i, head, 0);
    OccursAt(argv, i, head, 1);
  }

  lemma JoinIsSpelled(argv: Argv, join: Print<Member>, spells: Relation<Member>, rows: nat, i: nat, ms: seq<Member>)
    requires MemberPrintSpells(argv, join, spells, rows)
    requires ms != [] && |join(i + 2, ms[0])| >= 1 && (forall m <- ms :: MemberOk(m, rows)) &&
             Occurs(argv, i, JoinPieces(join, i, ms))
    ensures JoinSpelled(argv, spells, i, i + |JoinPieces(join, i, ms)|, ms)
  {
    var first := join(i + 2, ms[0]);
    var k := i + 2 + |first|;
    JoinPrinted(argv, i, first, PrintMany(PlusPrint(join), k, ms[1..]));
    PlusesPrint(argv, join, spells, rows);
    ManyIsSpelled(argv, PlusPrint(join), OkMember(rows), AfterPlus(spells), Pluses(argv), k, ms[1..]);
  }

  ghost predicate BodySpellsAt(argv: Argv, body: Print<Body>, spells: Relation<Body>, rows: nat, i: nat, b: Body) {
    BodyOk(b, rows) && Occurs(argv, i, body(i, b)) ==> |body(i, b)| >= 1 && spells(i, i + |body(i, b)|, b)
  }

  ghost predicate BodyPrintSpells(argv: Argv, body: Print<Body>, spells: Relation<Body>, rows: nat) {
    forall i: nat, b: Body {:trigger body(i, b)} :: BodySpellsAt(argv, body, spells, rows, i, b)
  }

  ghost predicate AtLeastOne<T(!new)>(one: Print<T>) {
    forall i: nat, x: T {:trigger one(i, x)} :: |one(i, x)| >= 1
  }

  lemma BodiesPrint(argv: Argv, plain: Print<Member>, join: Print<Member>, plainly: Relation<Member>,
                    joined: Relation<Member>, rows: nat)
    requires MemberPrintSpells(argv, plain, plainly, rows) && MemberPrintSpells(argv, join, joined, rows)
    requires AtLeastOne(join)
    ensures BodyPrintSpells(argv, BodyPrint(plain, join), SpelledBy(argv, plainly, joined), rows)
  {
    var body := BodyPrint(plain, join);
    forall i: nat, b: Body ensures BodySpellsAt(argv, body, SpelledBy(argv, plainly, joined), rows, i, b) {
      if b.Joined? && BodyOk(b, rows) && Occurs(argv, i, body(i, b)) {
        JoinIsSpelled(argv, join, joined, rows, i, b.members);
      }
    }
  }

  ghost function GoodCol(rows: nat): Col -> bool {
    (c: Col) => ColOk(c, rows)
  }

  lemma ColPrinted(argv: Argv, body: Print<Body>, i: nat, c: Col)
    requires IsName(c.name) && Occurs(argv, i, ColPrint(body)(i, c))
    ensures Columns(argv)(i) && i + 2 <= |argv| && argv[i + 1].name && argv[i + 1].text == c.name
    ensures Occurs(argv, i + 2, body(i + 2, c.body)) && |ColPrint(body)(i, c)| == 2 + |body(i + 2, c.body)|
  {
    var head := [Flg(F.C, F.Column), Id(c.name)];
    OccursSplit(argv, i, head, body(i + 2, c.body));
    OccursAt(argv, i, head, 0);
    OccursAt(argv, i, head, 1);
  }

  lemma ColsPrint(argv: Argv, body: Print<Body>, spells: Relation<Body>, rows: nat)
    requires BodyPrintSpells(argv, body, spells, rows)
    ensures PrintSpells(argv, ColPrint(body), GoodCol(rows), SpelledCols(argv, spells), Columns(argv))
  {
    var one := ColPrint(body);
    forall i: nat, c: Col ensures SpellsAt(argv, one, GoodCol(rows), SpelledCols(argv, spells), Columns(argv), i, c) {
      if ColOk(c, rows) && Occurs(argv, i, one(i, c)) {
        ColPrinted(argv, body, i, c);
      }
    }
  }

  ghost predicate ColPrintSpells(argv: Argv, col: Print<Col>, spells: nat -> Relation<Body>) {
    forall rows: nat {:trigger spells(rows)} :: rows <= UPTO_MAX ==>
      PrintSpells(argv, col, GoodCol(rows), SpelledCols(argv, spells(rows)), Columns(argv))
  }

  ghost function GoodTbl(): Tbl -> bool {
    (t: Tbl) => TblOk(t)
  }

  lemma TblPrinted(argv: Argv, col: Print<Col>, i: nat, t: Tbl)
    requires IsName(t.name) && 1 <= t.rows <= UPTO_MAX && Occurs(argv, i, TblPrint(col)(i, t))
    ensures Tables(argv)(i) && i + 3 <= |argv| && argv[i + 1].name && argv[i + 1].text == t.name
    ensures RowCount(argv[i + 2].unsigned) == Some(t.rows)
    ensures Occurs(argv, i + 3, PrintMany(col, i + 3, t.cols)) && |TblPrint(col)(i, t)| == 3 + |PrintMany(col, i + 3, t.cols)|
  {
    var head := [Flg(F.T, F.Table), Id(t.name), Count(t.rows)];
    OccursSplit(argv, i, head, PrintMany(col, i + 3, t.cols));
    OccursAt(argv, i, head, 0);
    OccursAt(argv, i, head, 1);
    OccursAt(argv, i, head, 2);
  }

  lemma ColsSpelledPrinted(argv: Argv, col: Print<Col>, spells: Relation<Body>, rows: nat, i: nat, cs: seq<Col>)
    requires PrintSpells(argv, col, GoodCol(rows), SpelledCols(argv, spells), Columns(argv))
    requires cs != [] && (forall c <- cs :: ColOk(c, rows)) && Occurs(argv, i, PrintMany(col, i, cs))
    ensures Columns(argv)(i) && ColsSpelled(argv, spells, i, i + |PrintMany(col, i, cs)|, cs)
  {
    var k := FirstIsSpelled(argv, col, GoodCol(rows), SpelledCols(argv, spells), Columns(argv), i, cs);
  }

  lemma TblIsSpelled(argv: Argv, col: Print<Col>, spells: nat -> Relation<Body>, i: nat, t: Tbl)
    requires ColPrintSpells(argv, col, spells)
    requires TblOk(t) && Occurs(argv, i, TblPrint(col)(i, t))
    ensures Tables(argv)(i) && TblSpelled(argv, spells, i, i + |TblPrint(col)(i, t)|, t)
  {
    TblPrinted(argv, col, i, t);
    var colSpells := SpelledCols(argv, spells(t.rows));
    ColsSpelledPrinted(argv, col, spells(t.rows), t.rows, i + 3, t.cols);
  }

  lemma TblsPrint(argv: Argv, col: Print<Col>, spells: nat -> Relation<Body>)
    requires ColPrintSpells(argv, col, spells)
    ensures PrintSpells(argv, TblPrint(col), GoodTbl(), SpelledTbls(argv, spells), Tables(argv))
  {
    forall i: nat, t: Tbl ensures SpellsAt(argv, TblPrint(col), GoodTbl(), SpelledTbls(argv, spells), Tables(argv), i, t) {
      if TblOk(t) && Occurs(argv, i, TblPrint(col)(i, t)) {
        TblIsSpelled(argv, col, spells, i, t);
      }
    }
  }

  /** No table is printed in fewer than 6 arguments. */
  ghost predicate LongTbls(tbl: Print<Tbl>) {
    forall i: nat, t: Tbl {:trigger tbl(i, t)} :: TblOk(t) ==> |tbl(i, t)| >= 6
  }

  lemma PrintsSomething(plain: Print<Member>, join: Print<Member>)
    requires AtLeastOne(plain) && AtLeastOne(join)
    ensures AtLeastOne(BodyPrint(plain, join))
  {
    var body := BodyPrint(plain, join);
    forall i: nat, b: Body ensures |body(i, b)| >= 1 {
      if b.Plain? {
        assert body(i, b) == plain(i, b.member);
      } else if b.members != [] {
        assert body(i, b) == JoinPieces(join, i, b.members);
      } else {
        assert body(i, b) == StringPieces(F.J, F.Join);
      }
    }
  }

  lemma TblsAreLong(body: Print<Body>)
    requires AtLeastOne(body)
    ensures LongTbls(TblPrint(ColPrint(body)))
  {
    var col := ColPrint(body);
    forall i: nat, t: Tbl | TblOk(t) ensures |TblPrint(col)(i, t)| >= 6 {
      assert col(i + 3, t.cols[0]) == [Flg(F.C, F.Column), Id(t.cols[0].name)] + body(i + 5, t.cols[0].body);
      TblLength(col, i, t);
    }
  }

  lemma TblLength(col: Print<Col>, i: nat, t: Tbl)
    requires t.cols != []
    ensures |TblPrint(col)(i, t)| >= 3 + |col(i + 3, t.cols[0])|
  {
  }

  lemma DbPrinted(argv: Argv, tbl: Print<Tbl>, i: nat, d: Db)
    requires IsName(d.name) && Occurs(argv, i, DbPrint(tbl)(i, d))
    ensures Databases(argv)(i) && i + 2 <= |argv| && argv[i + 1].name && argv[i + 1].text == d.name
    ensures Occurs(argv, i + 2, PrintMany(tbl, i + 2, d.tbls)) && |DbPrint(tbl)(i, d)| == 2 + |PrintMany(tbl, i + 2, d.tbls)|
  {
    var head := [Flg(F.D, F.Database), Id(d.name)];
    OccursSplit(argv, i, head, PrintMany(tbl, i + 2, d.tbls));
    OccursAt(argv, i, head, 0);
    OccursAt(argv, i, head, 1);
  }

  lemma TblsSpelledPrinted(argv: Argv, tbl: Print<Tbl>, spells: Relation<Tbl>, i: nat, ts: seq<Tbl>) returns (k: nat)
    requires PrintSpells(argv, tbl, GoodTbl(), spells, Tables(argv)) && LongTbls(tbl)
    requires ts != [] && (forall t <- ts :: TblOk(t)) && Occurs(argv, i, PrintMany(tbl, i, ts))
    ensures i + 6 <= |argv| && Tables(argv)(i) && spells(i, k, ts[0])
    ensures ManySpelled(spells, Tables(argv), |argv|, k, i + |PrintMany(tbl, i, ts)|, ts[1..])
  {
    k := FirstIsSpelled(argv, tbl, GoodTbl(), spells, Tables(argv), i, ts);
    assert |PrintMany(tbl, i, ts)| >= |tbl(i, ts[0])|;
  }

  lemma DbIsSpelled(argv: Argv, tbl: Print<Tbl>, spells: Relation<Tbl>, i: nat, d: Db)
    requires PrintSpells(argv, tbl, GoodTbl(), spells, Tables(argv)) && LongTbls(tbl)
    requires DbOk(d) && Occurs(argv, i, DbPrint(tbl)(i, d))
    ensures Databases(argv)(i) && DbSpelled(argv, spells, i, i + |DbPrint(tbl)(i, d)|, d)
  {
    DbPrinted(argv, tbl, i, d);
    var first, end := i + 2, i + |DbPrint(tbl)(i, d)|;
    var k := TblsSpelledPrinted(argv, tbl, spells, first, d.tbls);
    assert Tables(argv)(first) && spells(first, k, d.tbls[0]);
    assert ManySpelled(spells, Tables(argv), |argv|, k, end, d.tbls[1..]);
  }

  ghost function GoodDb(): Db -> bool {
    (d: Db) => DbOk(d)
  }

  lemma DbsPrint(argv: Argv, tbl: Print<Tbl>, spells: Relation<Tbl>)
    requires PrintSpells(argv, tbl, GoodTbl(), spells, Tables(argv)) && LongTbls(tbl)
    ensures PrintSpells(argv, DbPrint(tbl), GoodDb(), SpelledDbs(argv, spells), Databases(argv))
  {
    forall i: nat, d: Db ensures SpellsAt(argv, DbPrint(tbl), GoodDb(), SpelledDbs(argv, spells), Databases(argv), i, d) {
      if DbOk(d) && Occurs(argv, i, DbPrint(tbl)(i, d)) {
        DbIsSpelled(argv, tbl, spells, i, d);
      }
    }
  }

  lemma PrintedIsConcatenation(argv: Argv, db: Print<Db>, spells: Relation<Db>, ds: seq<Db>)
    requires PrintSpells(argv, db, GoodDb(), spells, Databases(argv))
    requires ds != [] && forall d <- ds :: DbOk(d)
    requires Occurs(argv, 0, PrintMany(db, 0, ds)) && |PrintMany(db, 0, ds)| == |argv|
    ensures Concatenation(argv, spells, ds)
  {
    var k := FirstIsSpelled(argv, db, GoodDb(), spells, Databases(argv), 0, ds);
  }

  lemma PrintedBodiesSuffice(argv: Argv, body: Print<Body>, spells: nat -> Relation<Body>, ds: seq<Db>)
    requires forall rows: nat {:trigger spells(rows)} :: rows <= UPTO_MAX ==> BodyPrintSpells(argv, body, spells(rows), rows)
    requires LongTbls(TblPrint(ColPrint(body)))
    requires ds != [] && forall d <- ds :: DbOk(d)
    requires var ps := PrintMany(DbPrint(TblPrint(ColPrint(body))), 0, ds); Occurs(argv, 0, ps) && |ps| == |argv|
    ensures Concatenation(argv, SpelledDbs(argv, SpelledTbls(argv, spells)), ds)
  {
    var col := ColPrint(body);
    forall rows: nat | rows <= UPTO_MAX
      ensures PrintSpells(argv, col, GoodCol(rows), SpelledCols(argv, spells(rows)), Columns(argv))
    {
      ColsPrint(argv, body, spells(rows), rows);
    }
    TblsPrint(argv, col, spells);
    DbsPrint(argv, TblPrint(col), SpelledTbls(argv, spells));
    PrintedIsConcatenation(argv, DbPrint(TblPrint(col)), SpelledDbs(argv, SpelledTbls(argv, spells)), ds);
  }

  lemma MemberBodiesPrint(argv: Argv, st: Style, rows: nat)
    requires rows <= UPTO_MAX
    ensures BodyPrintSpells(argv, BodyPrint(MemberPrint(st, false), MemberPrint(st, true)), SpelledBodies(argv)(rows), rows)
  {
    MembersPrint(argv, st, rows, false);
    MembersPrint(argv, st, rows, true);
    BodiesPrint(argv, MemberPrint(st, false), MemberPrint(st, true), SpelledMembers(argv, rows, false), SpelledMembers(argv, rows, true), rows);
  }

  /** Arguments that read as the printed pieces are a command line for the databases. */
  lemma PrintedIsCommandLine(argv: Argv, st: Style, ds: seq<Db>)
    requires ds != [] && forall d <- ds :: DbOk(d)
    requires Occurs(argv, 0, CommandPieces(st, ds)) && |CommandPieces(st, ds)| == |argv|
    ensures CommandLine(argv, ds)
  {
    var body, spells := BodyPrint(MemberPrint(st, false), MemberPrint(st, true)), SpelledBodies(argv);
    forall rows: nat | rows <= UPTO_MAX ensures BodyPrintSpells(argv, body, spells(rows), rows) {
      MemberBodiesPrint(argv, st, rows);
    }
    PrintsSomething(MemberPrint(st, false), MemberPrint(st, true));
    TblsAreLong(body);
    PrintedBodiesSuffice(argv, body, spells, ds);
  }

  lemma {:induction false} TextsAreRead(ps: seq<Piece>, long: nat -> bool, i: nat)
    requires i <= |ps|
    ensures Occurs(LexAll(Texts(ps, long)), i, ps[i..])
    decreases |ps| - i
  {
    if i < |ps| {
      PieceIsRead(ps[i], long(i));
      TextsAreRead(ps, long, i + 1);
      assert ps[i..][1..] == ps[i + 1..];
    }
  }

  /** Printing well-formed databases in any style and parsing the result gives the same
      databases, with success. */
  lemma RoundTrip(st: Style, ds: seq<Db>)
    requires ds != [] && forall d <- ds :: DbOk(d)
    ensures Run(LexAll(CommandArgs(st, ds))) == Outcome(ds, true)
  {
    var argv := LexAll(CommandArgs(st, ds));
    TextsAreRead(CommandPieces(st, ds), st.long, 0);
    assert CommandPieces(st, ds)[0..] == CommandPieces(st, ds);
    PrintedIsCommandLine(argv, st, ds);
    CleanRunIffCommandLine(argv, ds);
  }
}
