/** The types of plain columns, from below: no narrower integer type would do, some cell takes all of the
    declared length, and CHAR, VARCHAR, TIMESTAMP and DATETIME are where they should be. */
module ColumnTypes {
  import opened Octets
  import opened Numbers
  import opened Specs
  import opened Tokens
  import opened Members
  import opened BodySpelling
  import opened Random
  import opened Columns
  import opened Rendering
  import opened JoinCells
  import F = Flags

  /** The cells of a plain column. */
  ghost function PlainTexts(name: Arg, m: Member, rows: nat): Texts {
    (s: Arg) => Prints(PlainSpec(name, m, rows), rows, s)
  }

  function TypeOfPlain(name: Arg, m: Member, rows: nat): SqlType {
    PlainSpec(name, m, rows).kindOf
  }

  // ---------- integers ----------

  lemma DecimalIsInjective(m: nat, n: nat)
    requires Decimal(m) == Decimal(n)
    ensures m == n
  {
    ValueDecimal(m);
    ValueDecimal(n);
  }

  lemma SignShows(v: int)
    ensures Text(v)[0] == '-' <==> v < 0
    ensures v < 0 ==> Text(v)[1..] == Decimal(-v)
  {
    if v >= 0 {
      assert IsDigit(Decimal(v)[0]);
    }
  }

  lemma TextIsInjective(u: int, v: int)
    requires Text(u) == Text(v)
    ensures u == v
  {
    SignShows(u);
    SignShows(v);
    if u < 0 {
      DecimalIsInjective(-u, -v);
    } else {
      DecimalIsInjective(u, v);
    }
  }

  /** Every cell is the text of a number that the type holds. */
  ghost predicate HoldsAll(t: IntType, texts: Texts) {
    forall s: Arg :: texts(s) ==> FitsType(Integer(t), s)
  }

  /** Of the types of its sign, none with fewer bits holds every cell. */
  ghost predicate IsNarrowest(t: IntType, texts: Texts) {
    HoldsAll(t, texts) && forall u: IntType :: u.sign == t.sign && HoldsAll(u, texts) ==> Bits(t) <= Bits(u)
  }

  lemma NarrowestFor(t: IntType, s: Sign, v: int, texts: Texts)
    requires InRange(s, v) && t == TypeOf(s, v) && texts(Text(v)) && HoldsAll(t, texts)
    ensures IsNarrowest(t, texts)
  {
    TypeIsNarrowest(s, v);
    forall u: IntType | u.sign == t.sign && HoldsAll(u, texts) ensures Bits(t) <= Bits(u) {
      assert FitsType(Integer(u), Text(v));
      var w: int :| Holds(u, w) && Text(v) == Text(w);
      TextIsInjective(v, w);
    }
  }

  /** A fixed 0 of an unsigned column. */
  predicate IsUnsignedZero(k: Kind) {
    k == IntFixed(Unsigned, 0)
  }

  /** A counter or fixed integer has the narrowest type of its sign that holds every cell, but an
      unsigned fixed 0 has a signed one. */
  lemma CounterTypeIsNarrowest(name: Arg, m: Member, rows: nat)
    requires m.kind.IntDefault? || m.kind.IntUnique? || m.kind.IntFixed?
    requires MemberOk(m, rows) && 1 <= rows <= UPTO_MAX
    ensures TypeOfPlain(name, m, rows).Integer?
    ensures var t := TypeOfPlain(name, m, rows).t;
            if IsUnsignedZero(m.kind) then t == Tiny(Signed)
            else t.sign == m.kind.sign && IsNarrowest(t, PlainTexts(name, m, rows))
  {
    var texts, t := PlainTexts(name, m, rows), TypeOfPlain(name, m, rows).t;
    forall s: Arg | texts(s) ensures FitsType(Integer(t), s) {
      PlainColumnFits(name, m, rows, s);
    }
    var v := if m.kind.IntFixed? then m.kind.value else GroupCount(m.grp, rows);
    if !IsUnsignedZero(m.kind) {
      TypeIsNarrowest(m.kind.sign, v);
      assert Text(v) == if m.kind.IntFixed? then Text(m.kind.value) else Decimal(v);
      assert texts(Text(v));
      NarrowestFor(t, m.kind.sign, v, texts);
    }
  }

  /** Whatever the qualifier, bounds and group: a random integer is declared with the type that it
      ranges over. */
  lemma RandomTypeIs(name: Arg, m: Member, rows: nat)
    requires IsRandom(m.kind) && KindOk(m.kind)
    ensures TypeOfPlain(name, m, rows) == Integer(RangedType(m.kind))
  {
    PlanRanges(m.kind, ByGroup(m.grp, false));
  }

  // ---------- strings ----------

  predicate IsString(k: Kind) {
    || k.StrDefault? || k.StrUnique? || k.StrFixed? || k.StrUuid? || k.StrHash?
    || k.StrNamesFirst? || k.StrNamesLast? || k.StrNamesFull?
  }

  /** Fixed text is declared with its terminator. */
  function Terminator(k: Kind): nat {
    if k.StrFixed? then 1 else 0
  }

  /** The declared length of a string is the length of its longest cell, or one more for fixed text. */
  lemma StringLengthIsAttained(name: Arg, m: Member, rows: nat)
    requires IsString(m.kind) && MemberOk(m, rows) && 1 <= rows <= UPTO_MAX
    ensures var t := TypeOfPlain(name, m, rows);
            && (t.Char? || t.Varchar?) && t.length >= Terminator(m.kind)
            && IsLongest(PlainTexts(name, m, rows), Some(t.length - Terminator(m.kind)))
  {
    var texts := PlainTexts(name, m, rows);
    match m.kind
    case StrDefault => PlainCounted(name, m, rows, name);
    case StrUnique(base) => PlainCounted(name, m, rows, base);
    case StrFixed(text) => FixedTexts(texts, text);
    case StrUuid => FixedTexts(texts, Filler(UUID_STRING_LENGTH));
    case StrHash(length) => FixedTexts(texts, Filler(length));
    case StrNamesFirst => NamesTexts(texts, FIRST_NAME_LENGTH_MAX);
    case StrNamesLast => NamesTexts(texts, LAST_NAME_LENGTH_MAX);
    case StrNamesFull => NamesTexts(texts, FULL_NAME_LENGTH_MAX);
  }

  lemma PlainCounted(name: Arg, m: Member, rows: nat, base: Arg)
    requires (m.kind.StrDefault? && base == name) || (m.kind.StrUnique? && base == m.kind.base)
    requires MemberOk(m, rows) && 1 <= rows <= UPTO_MAX
    ensures IsLongest(PlainTexts(name, m, rows), Some(|base| + UintDigitCount(GroupCount(m.grp, rows))))
    ensures EquallyLong(PlainTexts(name, m, rows)) <==> GroupCount(m.grp, rows) <= 9
  {
    var texts, counting := PlainTexts(name, m, rows), Counting(base, GroupCount(m.grp, rows));
    assert SameTexts(texts, counting);
    LongestCounted(base, GroupCount(m.grp, rows));
    CountedEquallyLong(base, GroupCount(m.grp, rows));
    SameLongest(texts, counting, Some(|base| + UintDigitCount(GroupCount(m.grp, rows))));
    SameLengths(texts, counting);
  }

  /** Whatever the table, column and group, the cells of one column of this kind are equally long. */
  ghost predicate CellsEquallyLongByKind(k: Kind) {
    forall name: Arg, grp: Option<Grp>, rows: nat ::
      MemberOk(Member(k, grp), rows) && 1 <= rows <= UPTO_MAX ==> EquallyLong(PlainTexts(name, Member(k, grp), rows))
  }

  /** A string column is CHAR if and only if its cells are equally long by kind, and else VARCHAR. */
  lemma CharIff(name: Arg, m: Member, rows: nat)
    requires IsString(m.kind) && MemberOk(m, rows)
    ensures TypeOfPlain(name, m, rows).Char? <==> CellsEquallyLongByKind(m.kind)
    ensures TypeOfPlain(name, m, rows).Char? || TypeOfPlain(name, m, rows).Varchar?
  {
    var k := m.kind;
    if TypeOfPlain(name, m, rows).Char? {
      forall n: Arg, grp: Option<Grp>, r: nat | MemberOk(Member(k, grp), r) && 1 <= r <= UPTO_MAX
        ensures EquallyLong(PlainTexts(n, Member(k, grp), r))
      {
        FixedTexts(PlainTexts(n, Member(k, grp), r), Sample(Member(k, grp)));
      }
    } else {
      var ten := Member(k, None);
      assert MemberOk(ten, 10);
      if k.StrDefault? || k.StrUnique? {
        PlainCounted(name, ten, 10, if k.StrDefault? then name else k.base);
      } else {
        NamesTexts(PlainTexts(name, ten, 10), TypeOfPlain(name, ten, 10).length);
      }
      assert !EquallyLong(PlainTexts(name, ten, 10));
    }
  }

  // ---------- times ----------

  predicate IsTimeOf(k: Kind, clock: Clock) {
    k == TimeDefault(clock) || k == TimeUnique(clock) || k == TimeFixed(clock)
  }

  lemma TimeTypeIs(name: Arg, m: Member, rows: nat, clock: Clock)
    ensures TypeOfPlain(name, m, rows) == Moment(clock) <==> IsTimeOf(m.kind, clock)
  {
  }

  lemma ClockFlagIs(argv: Argv, i: nat, k: Kind, clock: Clock)
    requires KindSpelled(argv, i, k) && i < |argv|
    ensures IsTimeOf(k, clock) <==> ClockFlag(argv[i].word, clock)
  {
  }

  /** The type is TIMESTAMP if and only if the argument was `-ts` or `--timestamp`, and DATETIME if and
      only if it was `-dt` or `--datetime`. */
  lemma MomentIff(args: seq<Arg>, i: nat, name: Arg, m: Member, rows: nat)
    requires i < |args| && KindSpelled(LexAll(args), i, m.kind)
    ensures TypeOfPlain(name, m, rows) == Moment(Timestamp) <==> args[i] == "-ts" || args[i] == "--timestamp"
    ensures TypeOfPlain(name, m, rows) == Moment(Datetime) <==> args[i] == "-dt" || args[i] == "--datetime"
  {
    TimeTypeIs(name, m, rows, Timestamp);
    TimeTypeIs(name, m, rows, Datetime);
    ClockFlagIs(LexAll(args), i, m.kind, Timestamp);
    ClockFlagIs(LexAll(args), i, m.kind, Datetime);
    ClockText(args[i]);
  }

  lemma ClockText(a: Arg)
    ensures ClockFlag(F.Classify(a), Timestamp) <==> a == "-ts" || a == "--timestamp"
    ensures ClockFlag(F.Classify(a), Datetime) <==> a == "-dt" || a == "--datetime"
  {
    F.WordIff(a, F.Timestamp);
    F.WordIff(a, F.Datetime);
  }
}
