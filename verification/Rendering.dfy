/** What the build functions print, and whether it fits the type that is declared for a plain
    column. */
module Rendering {
  import opened Octets
  import opened Numbers
  import opened Specs
  import opened Random
  import opened Columns

  /** Up to which number the build function of a stored column counts. */
  function CountTo(c: ColSpec, grouped: bool, rows: nat): nat {
    if grouped then GroupCount(c.grp, rows) else rows
  }

  function NameLengthMax(n: Names): nat {
    match n
    case First => FIRST_NAME_LENGTH_MAX
    case Last => LAST_NAME_LENGTH_MAX
    case FullName => FULL_NAME_LENGTH_MAX
  }

  /** The cells a build function prints from the stored column alone. */
  ghost predicate Prints(c: ColSpec, rows: nat, s: Arg) {
    match c.build
    case NoBuild => false
    case UniqueInt(_, grouped) => exists n: nat :: 1 <= n <= CountTo(c, grouped, rows) && s == Decimal(n)
    case FixedInt(_) => s == c.base
    case RandomInt(_, _, _) => c.plan.Some? && PrintsText(c.plan.value.gen, s)
    case UniqueStr(grouped) => exists n: nat :: 1 <= n <= CountTo(c, grouped, rows) && s == c.base + Decimal(n)
    case FixedStr => s == c.base
    case Uuid(_) => |s| == UUID_STRING_LENGTH
    case Hash(_) => c.kind.StrHash? && |s| == c.kind.length
    case Name(names, _) => 1 <= |s| <= NameLengthMax(names)
    case UniqueTime(_, _) => |s| == LENGTH_TIME_STRING
    case FixedTime(_) => |s| == LENGTH_TIME_STRING
  }

  // ---------- plain columns ----------

  ghost predicate FitsType(t: SqlType, s: Arg) {
    match t
    case NoType => false
    case Integer(it) => exists v: int :: Holds(it, v) && s == Text(v)
    case Char(length) => |s| <= length
    case Varchar(length) => |s| <= length
    case Moment(_) => |s| == LENGTH_TIME_STRING
  }

  lemma CounterFits(s: Sign, n: nat, count: nat)
    requires 1 <= n <= count <= UPTO_MAX
    ensures FitsType(Integer(TypeOf(s, count)), Decimal(n)) && |Decimal(n)| <= UintDigitCount(count)
  {
    TypeHoldsAllBelow(s, count, n);
    assert Decimal(n) == Text(n);
    DecimalMonotone(n, count);
    UintDigitCountIsLength(count);
  }

  lemma FixedIntFits(k: Kind)
    requires k.IntFixed? && KindOk(k)
    ensures FitsType(PlainType(k, None, 0, []), Text(k.value))
  {
    TypeIsNarrowest(k.sign, k.value);
  }

  /** Every cell of a plain column fits the type that is declared for it. */
  lemma PlainColumnFits(name: Arg, m: Member, rows: nat, s: Arg)
    requires MemberOk(m, rows) && rows <= UPTO_MAX && Prints(PlainSpec(name, m, rows), rows, s)
    ensures FitsType(PlainSpec(name, m, rows).kindOf, s)
  {
    var c := PlainSpec(name, m, rows);
    var count := GroupCount(m.grp, rows);
    match m.kind
    case IntDefault(sign) => UniqueIntFits(sign, c, rows, s);
    case IntUnique(sign) => UniqueIntFits(sign, c, rows, s);
    case IntFixed(_, _) => FixedIntFits(m.kind);
    case StrDefault => UniqueStrFits(c, rows, s);
    case StrUnique(_) => UniqueStrFits(c, rows, s);
    case StrFixed(_) =>
    case StrUuid =>
    case StrHash(_) =>
    case StrNamesFirst =>
    case StrNamesLast =>
    case StrNamesFull =>
    case TimeDefault(_) =>
    case TimeUnique(_) =>
    case TimeFixed(_) =>
    case _ => RandomIntFits(m.kind, ByGroup(m.grp, false), s);
  }

  lemma UniqueIntFits(sign: Sign, c: ColSpec, rows: nat, s: Arg)
    requires c.build.UniqueInt? && 1 <= CountTo(c, c.build.grouped, rows) <= UPTO_MAX && Prints(c, rows, s)
    ensures var count := CountTo(c, c.build.grouped, rows);
            FitsType(Integer(TypeOf(sign, count)), s) && |s| <= UintDigitCount(count)
  {
    var n: nat :| 1 <= n <= CountTo(c, c.build.grouped, rows) && s == Decimal(n);
    CounterFits(sign, n, CountTo(c, c.build.grouped, rows));
  }

  lemma UniqueStrFits(c: ColSpec, rows: nat, s: Arg)
    requires c.build.UniqueStr? && 1 <= CountTo(c, c.build.grouped, rows) <= UPTO_MAX && Prints(c, rows, s)
    ensures |s| <= |c.base| + UintDigitCount(CountTo(c, c.build.grouped, rows))
  {
    var n: nat :| 1 <= n <= CountTo(c, c.build.grouped, rows) && s == c.base + Decimal(n);
    CounterFits(Unsigned, n, CountTo(c, c.build.grouped, rows));
  }

  lemma RandomIntFits(k: Kind, grouped: bool, s: Arg)
    requires IsRandom(k) && KindOk(k) && PrintsText(PlanOf(k, grouped).gen, s)
    ensures FitsType(Integer(PlanOf(k, grouped).kind), s) && |s| + 1 <= PlanOf(k, grouped).width &&
            |s| <= PlanOf(k, grouped).length
  {
    var v: int :| Produces(PlanOf(k, grouped).gen, v) && s == Text(v);
    ProducedFits(k, grouped, v);
  }

  // ---------- legal types ----------

  /** The longest VARCHAR that MySQL has. */
  const VARCHAR_LENGTH_MAX: nat := 65535

  /** MySQL accepts the declaration. */
  predicate IsLegal(t: SqlType) {
    match t
    case NoType => false
    case Integer(_) => true
    case Char(length) => length <= CHAR_LENGTH_MAX
    case Varchar(length) => length <= VARCHAR_LENGTH_MAX
    case Moment(_) => true
  }

  lemma CountedTextIsShort(base: Arg, codePoints: nat, count: nat)
    requires CountFrom(base, 0).Some? && CountFrom(base, 0).value <= codePoints <= 255 && count <= UINT64_MAX
    ensures |base| + UintDigitCount(count) <= VARCHAR_LENGTH_MAX
  {
    OctetsPerCodePoint(base, 0);
  }

  /** The type of an accepted plain column is legal unless the column is fixed text of 255 octets
      or more, though it may be accepted: its code points are limited, its octets are declared. */
  lemma PlainTypeIsLegalIff(name: Arg, m: Member, rows: nat)
    requires IsName(name) && MemberOk(m, rows) && rows <= UPTO_MAX
    ensures IsLegal(PlainSpec(name, m, rows).kindOf) <==> (m.kind.StrFixed? ==> |m.kind.text| < CHAR_LENGTH_MAX)
  {
    if m.kind.StrDefault? {
      CountedTextIsShort(name, NAME_LENGTH_MAX, GroupCount(m.grp, rows));
    } else if m.kind.StrUnique? {
      CountedTextIsShort(m.kind.base, BASE_STRING_LENGTH_MAX, GroupCount(m.grp, rows));
    }
  }

  /** The same code point again and again. */
  function Repeated(p: Arg, n: nat): (a: Arg)
    ensures |a| == n * |p|
  {
    if n == 0 then [] else p + Repeated(p, n - 1)
  }

  lemma {:induction false} RepeatedIsSplit(p: Arg, n: nat) returns (pieces: seq<Arg>)
    requires IsCodePoint(p)
    ensures IsSplit(Repeated(p, n), n, pieces)
  {
    pieces := [];
    if n > 0 {
      var rest := RepeatedIsSplit(p, n - 1);
      pieces := [p] + rest;
      assert pieces[1..] == rest;
    }
  }

  /** 254 code points of four octets are accepted as FIXED_STRING, and declared CHAR(1017). */
  lemma IllegalCharWitness(name: Arg, p: Arg)
    requires IsCodePoint(p) && |p| == 4
    ensures var m := Member(StrFixed(Repeated(p, 254)), None);
            MemberOk(m, 1) && PlainSpec(name, m, 1).kindOf == Char(1017)
  {
    var text := Repeated(p, 254);
    var pieces := RepeatedIsSplit(p, 254);
    assert Spells(text, 254);
    CountIffSpells(text, 254);
    assert IsFixedString(text);
    assert |text| == 254 * |p|;
  }
}
