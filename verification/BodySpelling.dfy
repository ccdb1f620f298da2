/** Column bodies, declaratively: which argument ranges spell a COL_TYPE, a GRP_SPEC, a JOIN or a
    whole body.  The recursive parser accepts exactly these ranges. */
module BodySpelling {
  import opened Octets
  import opened Numbers
  import opened Specs
  import opened Tokens
  import opened Parsing
  import opened Members
  import F = Flags

  predicate IntegerFlag(w: F.Word, s: Sign) {
    if s.Signed? then F.Is(w, F.I, F.Integer) else F.Is(w, F.U, F.Unsigned)
  }

  predicate ClockFlag(w: F.Word, c: Clock) {
    if c.Timestamp? then F.Is(w, F.TS, F.Timestamp) else F.Is(w, F.DT, F.Datetime)
  }

  /** Number of arguments of COL_TYPE [COL_TYPE_Q]. */
  function KindLength(k: Kind): nat {
    match k
    case IntDefault(_) => 1
    case IntFixed(_, _) => 3
    case IntFrom(_, _) => 4
    case IntUpto(_, _) => 4
    case IntRange(_, _, _) => 5
    case StrDefault => 1
    case StrUnique(_) => 3
    case StrFixed(_) => 3
    case StrHash(_) => 3
    case TimeDefault(_) => 1
    case _ => 2
  }

  predicate RandomSpelled(argv: Argv, s: Sign, i: nat, short: F.Name, long: F.Flag)
    requires i + 4 <= |argv|
  {
    IntegerFlag(argv[i].word, s) && F.Is(argv[i + 1].word, F.R, F.Random) && F.Is(argv[i + 2].word, short, long)
  }

  predicate StringSpelled(argv: Argv, i: nat, short: F.Name, long: F.Flag)
    requires i + 2 <= |argv|
  {
    F.Is(argv[i].word, F.S, F.String) && F.Is(argv[i + 1].word, short, long)
  }

  predicate KindSpelled(argv: Argv, i: nat, k: Kind) {
    && i + KindLength(k) <= |argv|
    && match k
       case IntDefault(s) => IntegerFlag(argv[i].word, s)
       case IntUnique(s) => IntegerFlag(argv[i].word, s) && F.Is(argv[i + 1].word, F.U, F.Unique)
       case IntFixed(s, v) =>
         IntegerFlag(argv[i].word, s) && F.Is(argv[i + 1].word, F.F, F.Fixed) && Number(s, argv[i + 2]) == Some(v)
       case IntRandom(s) => IntegerFlag(argv[i].word, s) && F.Is(argv[i + 1].word, F.R, F.Random)
       case IntFrom(s, low) => RandomSpelled(argv, s, i, F.F, F.From) && Number(s, argv[i + 3]) == Some(low)
       case IntUpto(s, high) => RandomSpelled(argv, s, i, F.U, F.Upto) && Number(s, argv[i + 3]) == Some(high)
       case IntRange(s, low, high) =>
         && RandomSpelled(argv, s, i, F.R, F.Range) && low <= high
         && Number(s, argv[i + 3]) == Some(low) && Number(s, argv[i + 4]) == Some(high)
       case StrDefault => F.Is(argv[i].word, F.S, F.String)
       case StrUnique(base) => StringSpelled(argv, i, F.U, F.Unique) && argv[i + 2].base && argv[i + 2].text == base
       case StrFixed(text) => StringSpelled(argv, i, F.F, F.Fixed) && argv[i + 2].fixed && argv[i + 2].text == text
       case StrUuid => StringSpelled(argv, i, F.UU, F.Uuid)
       case StrHash(n) => StringSpelled(argv, i, F.H, F.Hash) && HashLength(argv[i + 2].unsigned) == Some(n)
       case StrNamesFirst => StringSpelled(argv, i, F.N1, F.NamesFirst)
       case StrNamesLast => StringSpelled(argv, i, F.NL, F.NamesLast)
       case StrNamesFull => StringSpelled(argv, i, F.NF, F.NamesFull)
       case TimeDefault(c) => ClockFlag(argv[i].word, c)
       case TimeUnique(c) => ClockFlag(argv[i].word, c) && F.Is(argv[i + 1].word, F.U, F.Unique)
       case TimeFixed(c) => ClockFlag(argv[i].word, c) && F.Is(argv[i + 1].word, F.F, F.Fixed)
  }

  /** GRP_SPEC; an omitted partition type means even. */
  predicate GrpSpelled(argv: Argv, rows: nat, p: nat, j: nat, g: Grp) {
    && p + 2 <= j <= |argv|
    && F.Is(argv[p].word, F.G, F.Group) && GrpCount(argv[p + 1].unsigned, rows) == Some(g.count)
    && if j == p + 2 then g.part.Even?
       else j == p + 3 && if g.part.Even? then F.Is(argv[p + 2].word, F.E, F.Even) else F.Is(argv[p + 2].word, F.L, F.Linear)
  }

  predicate TailSpelled(argv: Argv, rows: nat, p: nat, j: nat, m: Member) {
    match m.grp
    case None => j == p
    case Some(g) => !IsFixedData(m.kind) && GrpSpelled(argv, rows, p, j, g)
  }

  predicate MemberSpelled(argv: Argv, rows: nat, inJoin: bool, i: nat, j: nat, m: Member) {
    && i < j <= |argv|
    && if inJoin && !F.StartsWithDash(argv[i].word) then
         j == i + 1 && argv[i].fixed && m == Member(StrFixed(argv[i].text), None)
       else
         KindSpelled(argv, i, m.kind) && TailSpelled(argv, rows, i + KindLength(m.kind), j, m)
  }

  /** First position, end position and what is spelled in between. */
  type Relation<!T> = (nat, nat, T) -> bool

  ghost function SpelledMembers(argv: Argv, rows: nat, inJoin: bool): Relation<Member> {
    (i: nat, k: nat, m: Member) => MemberSpelled(argv, rows, inJoin, i, k, m)
  }

  /** `+ JOIN`, with the plus sign at the first position. */
  ghost function AfterPlus(join: Relation<Member>): Relation<Member> {
    (i: nat, k: nat, m: Member) => join(i + 1, k, m)
  }

  /** JOIN_SPEC: JOINs with plus signs between them. */
  ghost predicate JoinSpelled(argv: Argv, join: Relation<Member>, i: nat, j: nat, ms: seq<Member>) {
    && i + 2 < |argv| && F.Is(argv[i].word, F.S, F.String) && F.Is(argv[i + 1].word, F.J, F.Join) && ms != []
    && exists k: nat :: join(i + 2, k, ms[0]) && ManySpelled(AfterPlus(join), Pluses(argv), |argv|, k, j, ms[1..])
  }

  ghost predicate BodySpelledBy(argv: Argv, plain: Relation<Member>, join: Relation<Member>, i: nat, j: nat, b: Body) {
    match b
    case Plain(m) => plain(i, j, m)
    case Joined(ms) => JoinSpelled(argv, join, i, j, ms)
  }

  ghost function SpelledBy(argv: Argv, plain: Relation<Member>, join: Relation<Member>): Relation<Body> {
    (i: nat, j: nat, b: Body) => BodySpelledBy(argv, plain, join, i, j, b)
  }

  ghost predicate BodySpelled(argv: Argv, rows: nat, i: nat, j: nat, b: Body) {
    BodySpelledBy(argv, SpelledMembers(argv, rows, false), SpelledMembers(argv, rows, true), i, j, b)
  }

  // ---------- one column type ----------

  /** Something that may stand where a qualifier could: the end, a closing flag, `+` or a
      GRP_SPEC. */
  predicate Closes(argv: Argv, inJoin: bool, p: nat)
    requires p <= |argv|
  {
    Follows(argv, inJoin, p) || F.Is(argv[p].word, F.G, F.Group)
  }

  lemma IntegerSound(argv: Argv, s: Sign, i: nat)
    requires i < |argv| && IntegerFlag(argv[i].word, s) && IntegerQualifier(argv, s, i + 1).Ok?
    ensures var Ok(k, p) := IntegerQualifier(argv, s, i + 1); KindSpelled(argv, i, k) && p == i + KindLength(k)
  {
  }

  lemma StringSound(argv: Argv, i: nat)
    requires i < |argv| && F.Is(argv[i].word, F.S, F.String) && StringQualifier(argv, i + 1).Ok?
    ensures var Ok(k, p) := StringQualifier(argv, i + 1); KindSpelled(argv, i, k) && p == i + KindLength(k)
  {
  }

  lemma KindSound(argv: Argv, i: nat)
    requires i < |argv| && KindAt(argv, i).Ok?
    ensures var Ok(k, p) := KindAt(argv, i); KindSpelled(argv, i, k) && p == i + KindLength(k)
  {
    if F.Is(argv[i].word, F.I, F.Integer) {
      IntegerSound(argv, Signed, i);
    } else if F.Is(argv[i].word, F.U, F.Unsigned) {
      IntegerSound(argv, Unsigned, i);
    } else if F.Is(argv[i].word, F.S, F.String) {
      StringSound(argv, i);
    }
  }

  predicate IsInteger(k: Kind) {
    k.IntDefault? || k.IntUnique? || k.IntFixed? || k.IntRandom? || k.IntFrom? || k.IntUpto? || k.IntRange?
  }

  predicate IsTime(k: Kind) {
    k.TimeDefault? || k.TimeUnique? || k.TimeFixed?
  }

  lemma IntegerComplete(argv: Argv, inJoin: bool, i: nat, k: Kind)
    requires IsInteger(k) && KindSpelled(argv, i, k) && Closes(argv, inJoin, i + KindLength(k))
    ensures IntegerQualifier(argv, k.sign, i + 1) == Ok(k, i + KindLength(k))
  {
  }

  lemma NameComplete(argv: Argv, i: nat, k: Kind)
    requires k.StrNamesFirst? || k.StrNamesLast? || k.StrNamesFull?
    requires KindSpelled(argv, i, k)
    ensures StringQualifier(argv, i + 1) == Ok(k, i + KindLength(k))
    ensures !F.Is(argv[i + 1].word, F.J, F.Join)
  {
    var w := argv[i + 1].word;
    assert F.Is(w, F.N1, F.NamesFirst) || F.Is(w, F.NL, F.NamesLast) || F.Is(w, F.NF, F.NamesFull);
  }

  lemma TextComplete(argv: Argv, i: nat, k: Kind)
    requires k.StrUnique? || k.StrFixed? || k.StrUuid? || k.StrHash?
    requires KindSpelled(argv, i, k)
    ensures StringQualifier(argv, i + 1) == Ok(k, i + KindLength(k))
    ensures !F.Is(argv[i + 1].word, F.J, F.Join)
  {
    var w := argv[i + 1].word;
    assert F.Is(w, F.U, F.Unique) || F.Is(w, F.F, F.Fixed) || F.Is(w, F.UU, F.Uuid) || F.Is(w, F.H, F.Hash);
  }

  lemma StringDefaultComplete(argv: Argv, inJoin: bool, i: nat)
    requires KindSpelled(argv, i, StrDefault) && Closes(argv, inJoin, i + 1)
    ensures StringQualifier(argv, i + 1) == Ok(StrDefault, i + 1)
    ensures i + 1 < |argv| ==> !F.Is(argv[i + 1].word, F.J, F.Join)
  {
  }

  lemma StringComplete(argv: Argv, inJoin: bool, i: nat, k: Kind)
    requires !IsInteger(k) && !IsTime(k) && KindSpelled(argv, i, k) && Closes(argv, inJoin, i + KindLength(k))
    ensures StringQualifier(argv, i + 1) == Ok(k, i + KindLength(k)) && F.Is(argv[i].word, F.S, F.String)
    ensures i + 1 < |argv| ==> !F.Is(argv[i + 1].word, F.J, F.Join)
  {
    if k.StrDefault? {
      StringDefaultComplete(argv, inJoin, i);
    } else if k.StrNamesFirst? || k.StrNamesLast? || k.StrNamesFull? {
      NameComplete(argv, i, k);
    } else {
      TextComplete(argv, i, k);
    }
  }

  lemma KindComplete(argv: Argv, inJoin: bool, i: nat, k: Kind)
    requires KindSpelled(argv, i, k) && Closes(argv, inJoin, i + KindLength(k))
    ensures KindAt(argv, i) == Ok(k, i + KindLength(k)) && F.StartsWithDash(argv[i].word)
    ensures F.Is(argv[i].word, F.S, F.String) && i + 1 < |argv| ==> !F.Is(argv[i + 1].word, F.J, F.Join)
  {
    if IsInteger(k) {
      IntegerComplete(argv, inJoin, i, k);
    } else if !IsTime(k) {
      StringComplete(argv, inJoin, i, k);
    }
  }

  // ---------- one member ----------

  lemma TailSound(argv: Argv, rows: nat, inJoin: bool, k: Kind, p: nat)
    requires p <= |argv| && Tail(argv, rows, inJoin, k, p).Ok?
    ensures var Ok(m, j) := Tail(argv, rows, inJoin, k, p);
            m.kind == k && TailSpelled(argv, rows, p, j, m) && Follows(argv, inJoin, j)
  {
  }

  lemma TailComplete(argv: Argv, rows: nat, inJoin: bool, m: Member, p: nat, j: nat)
    requires p <= j <= |argv| && TailSpelled(argv, rows, p, j, m) && Follows(argv, inJoin, j)
    ensures Tail(argv, rows, inJoin, m.kind, p) == Ok(m, j) && Closes(argv, inJoin, p)
  {
  }

  function MemberAt(argv: Argv, rows: nat, inJoin: bool, i: nat): Parse<Member>
    requires i < |argv|
  {
    if inJoin then JoinAt(argv, rows, i) else PlainAt(argv, rows, i)
  }

  lemma {:induction false} MemberSound(argv: Argv, rows: nat, inJoin: bool, i: nat)
    requires i < |argv| && MemberAt(argv, rows, inJoin, i).Ok?
    ensures var Ok(m, j) := MemberAt(argv, rows, inJoin, i);
            MemberSpelled(argv, rows, inJoin, i, j, m) && Follows(argv, inJoin, j)
  {
    if inJoin && !F.StartsWithDash(argv[i].word) {
      TailSound(argv, rows, inJoin, StrFixed(argv[i].text), i + 1);
    } else {
      KindSound(argv, i);
      TailSound(argv, rows, inJoin, KindAt(argv, i).value, KindAt(argv, i).at);
    }
  }

  lemma {:induction false} MemberComplete(argv: Argv, rows: nat, inJoin: bool, i: nat, j: nat, m: Member)
    requires MemberSpelled(argv, rows, inJoin, i, j, m) && Follows(argv, inJoin, j)
    ensures MemberAt(argv, rows, inJoin, i) == Ok(m, j)
    ensures !inJoin && F.Is(argv[i].word, F.S, F.String) && i + 1 < |argv| ==> !F.Is(argv[i + 1].word, F.J, F.Join)
  {
    if inJoin && !F.StartsWithDash(argv[i].word) {
      TailComplete(argv, rows, inJoin, m, i + 1, j);
    } else {
      TailComplete(argv, rows, inJoin, m, i + KindLength(m.kind), j);
      KindComplete(argv, inJoin, i, m.kind);
    }
  }

  // ---------- JOINs and bodies ----------

  ghost function JoinCloses(argv: Argv): nat -> bool {
    (j: nat) => j <= |argv| && Follows(argv, true, j)
  }

  lemma JoinsSound(argv: Argv, rows: nat)
    ensures ItemSound(JoinParser(argv, rows), SpelledMembers(argv, rows, true), JoinCloses(argv), |argv|)
  {
    var join := JoinParser(argv, rows);
    forall i: nat | i < |argv| && join(i).Ok?
      ensures MemberSpelled(argv, rows, true, i, join(i).at, join(i).value) && JoinCloses(argv)(join(i).at)
    {
      MemberSound(argv, rows, true, i);
    }
  }

  lemma JoinsComplete(argv: Argv, rows: nat)
    ensures ItemComplete(JoinParser(argv, rows), SpelledMembers(argv, rows, true), JoinCloses(argv), |argv|)
  {
    forall i: nat, k: nat, m: Member | i < |argv| && MemberSpelled(argv, rows, true, i, k, m)
      ensures k <= |argv| && (JoinCloses(argv)(k) ==> JoinParser(argv, rows)(i) == Ok(m, k))
    {
      if Follows(argv, true, k) {
        MemberComplete(argv, rows, true, i, k, m);
      }
    }
  }

  lemma JoinSpecSound(argv: Argv, join: Parser<Member>, spells: Relation<Member>, i: nat)
    requires Advances(join, |argv|) && ItemSound(join, spells, JoinCloses(argv), |argv|)
    requires i + 2 <= |argv| && F.Is(argv[i].word, F.S, F.String) && F.Is(argv[i + 1].word, F.J, F.Join)
    requires JoinSpec(argv, join, i + 2).Ok?
    ensures var Ok(b, j) := JoinSpec(argv, join, i + 2);
            b.Joined? && JoinSpelled(argv, spells, i, j, b.members) && Follows(argv, false, j)
  {
    var Ok(m, k) := join(i + 2);
    var rest := ManySound(PlusItems(argv, join), Pluses(argv), AfterPlus(spells), JoinCloses(argv), |argv|, [m], k);
    assert ([m] + rest)[1..] == rest && spells(i + 2, k, m);
  }

  lemma JoinSpecComplete(argv: Argv, join: Parser<Member>, spells: Relation<Member>, i: nat, j: nat, ms: seq<Member>)
    requires Advances(join, |argv|) && ItemComplete(join, spells, JoinCloses(argv), |argv|) && Inside(spells, |argv|)
    requires j <= |argv| && JoinSpelled(argv, spells, i, j, ms) && Follows(argv, false, j)
    ensures JoinSpec(argv, join, i + 2) == Ok(Joined(ms), j)
  {
    var item, relation := PlusItems(argv, join), AfterPlus(spells);
    var k: nat :| spells(i + 2, k, ms[0]) && ManySpelled(relation, Pluses(argv), |argv|, k, j, ms[1..]);
    forall h: nat, l: nat, m: Member {:trigger relation(h, l, m)} | h < |argv| && relation(h, l, m)
      ensures l <= |argv| && (JoinCloses(argv)(l) ==> item(h) == Ok(m, l))
    {
      assert spells(h + 1, l, m);
    }
    ManyComplete(item, Pluses(argv), relation, JoinCloses(argv), |argv|, [ms[0]], k, j, ms[1..]);
    assert [ms[0]] + ms[1..] == ms;
  }

  ghost predicate Inside(spells: Relation<Member>, n: nat) {
    forall i: nat, k: nat, m: Member {:trigger spells(i, k, m)} :: spells(i, k, m) ==> i < k <= n
  }

  lemma {:induction false} BodySound(argv: Argv, rows: nat, i: nat)
    requires i < |argv| && BodyAt(argv, rows, i).Ok?
    ensures var Ok(b, j) := BodyAt(argv, rows, i); BodySpelled(argv, rows, i, j, b) && Follows(argv, false, j)
  {
    if F.Is(argv[i].word, F.S, F.String) && i + 1 < |argv| && F.Is(argv[i + 1].word, F.J, F.Join) {
      JoinsSound(argv, rows);
      JoinSpecSound(argv, JoinParser(argv, rows), SpelledMembers(argv, rows, true), i);
    } else {
      MemberSound(argv, rows, false, i);
    }
  }

  lemma {:induction false} BodyComplete(argv: Argv, rows: nat, i: nat, j: nat, b: Body)
    requires j <= |argv| && BodySpelled(argv, rows, i, j, b) && Follows(argv, false, j)
    ensures i < |argv| && BodyAt(argv, rows, i) == Ok(b, j)
  {
    match b
    case Plain(m) => MemberComplete(argv, rows, false, i, j, m);
    case Joined(ms) =>
      JoinsComplete(argv, rows);
      JoinSpecComplete(argv, JoinParser(argv, rows), SpelledMembers(argv, rows, true), i, j, ms);
  }

  lemma JoinInRange(argv: Argv, join: Relation<Member>, i: nat, j: nat, ms: seq<Member>)
    requires Inside(join, |argv|) && JoinSpelled(argv, join, i, j, ms)
    ensures i < j <= |argv|
  {
    var k: nat :| join(i + 2, k, ms[0]) && ManySpelled(AfterPlus(join), Pluses(argv), |argv|, k, j, ms[1..]);
    ManyInRange(AfterPlus(join), Pluses(argv), |argv|, k, j, ms[1..]);
  }

  /** A body ends within the arguments. */
  lemma BodyInRange(argv: Argv, rows: nat, i: nat, j: nat, b: Body)
    requires BodySpelled(argv, rows, i, j, b)
    ensures i < j <= |argv|
  {
    if b.Joined? {
      JoinInRange(argv, SpelledMembers(argv, rows, true), i, j, b.members);
    }
  }
}
