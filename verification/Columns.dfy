/** What the column and JOIN setters store, the SQL types they declare, how much a JOIN reserves,
    and which shared resources a database asks for. */
module Columns {
  import opened Octets
  import opened Numbers
  import opened Specs
  import opened Random

  const CHAR_LENGTH_MAX: nat := 255
  const UUID_STRING_LENGTH: nat := 36
  const LENGTH_TIME_STRING: nat := 19
  const FIRST_NAME_LENGTH_MAX: nat := 11
  const LAST_NAME_LENGTH_MAX: nat := 10
  const FULL_NAME_LENGTH_MAX: nat := 36

  datatype SqlType =
    | NoType
    | Integer(t: IntType)
    | Char(length: nat)
    | Varchar(length: nat)
    | Moment(clock: Clock)

  datatype Names = First | Last | FullName

  datatype Scale = Open | From | Upto | Range

  /** The build function of a column. */
  datatype Build =
    | NoBuild
    | UniqueInt(sign: Sign, grouped: bool)
    | FixedInt(sign: Sign)
    | RandomInt(sign: Sign, scale: Scale, grouped: bool)
    | UniqueStr(grouped: bool)
    | FixedStr
    | Uuid(grouped: bool)
    | Hash(grouped: bool)
    | Name(names: Names, grouped: bool)
    | UniqueTime(clock: Clock, grouped: bool)
    | FixedTime(clock: Clock)

  /** A ColSpec; `base` is the text a string builder starts from. */
  datatype ColSpec = ColSpec(
    name: Option<Arg>,
    kind: Kind,
    grp: Option<Grp>,
    base: Arg,
    plan: Option<Plan>,
    build: Build,
    kindOf: SqlType)

  /** Constructor flags: RAND_32_UUID is both of its bits. */
  datatype Ctor = Rand32 | Rand64 | UuidCtor

  /** What the columns of a database share: the counter runs up to `upto`. */
  datatype Shared = Shared(upto: nat, flags: set<Ctor>)

  function Max(m: nat, n: nat): nat {
    if m < n then n else m
  }

  function Merge(a: Shared, b: Shared): Shared {
    Shared(Max(a.upto, b.upto), a.flags + b.flags)
  }

  function WidthFlag(w: Width): Ctor {
    if w.W32? then Rand32 else Rand64
  }

  /** JoinSpecState without its pointers: the length so far, and whether set_col_type is VARCHAR. */
  datatype Join = Join(length: nat, varies: bool)

  function GroupCount(grp: Option<Grp>, rows: nat): nat {
    if grp.Some? then grp.value.count else rows
  }

  function ScaleOf(k: Kind, plan: Plan): Scale {
    if plan.gen.Unbound? then Open
    else match k
      case IntFrom(_, _) => From
      case IntUpto(_, _) => Upto
      case _ => Range
  }

  /** The setter is one of the column_*_group setters. */
  predicate ByGroup(grp: Option<Grp>, inJoin: bool) {
    grp.Some? && !inJoin
  }

  /** column_integer_random_from_group is the one setter whose switch has no returns. */
  predicate FallsThrough(k: Kind, grp: Option<Grp>, inJoin: bool) {
    k.IntFrom? && k.sign.Signed? && ByGroup(grp, inJoin)
  }

  /** The build function; join_string_default_group takes the ungrouped one, and
      column_u_integer_default_group the signed one. */
  function BuildOf(k: Kind, grp: Option<Grp>, inJoin: bool): Build
  {
    var g := grp.Some?;
    match k
    case IntDefault(s) => UniqueInt(if g && !inJoin then Signed else s, g)
    case IntUnique(s) => UniqueInt(s, g)
    case IntFixed(s, _) => FixedInt(s)
    case StrDefault => UniqueStr(g && !inJoin)
    case StrUnique(_) => UniqueStr(g)
    case StrFixed(_) => FixedStr
    case StrUuid => Uuid(g)
    case StrHash(_) => Hash(g)
    case StrNamesFirst => Name(First, g)
    case StrNamesLast => Name(Last, g)
    case StrNamesFull => Name(FullName, g)
    case TimeDefault(c) => UniqueTime(c, g)
    case TimeUnique(c) => UniqueTime(c, g)
    case TimeFixed(c) => FixedTime(c)
    case _ =>
      var plan := PlanOf(k, ByGroup(grp, inJoin));
      RandomInt(k.sign, if FallsThrough(k, grp, inJoin) then From else ScaleOf(k, plan), g)
  }

  function PlanFor(k: Kind, grp: Option<Grp>, inJoin: bool): Option<Plan>
  {
    if IsRandom(k) then Some(PlanOf(k, ByGroup(grp, inJoin))) else None
  }

  /** Where a string builder starts; fixed integers keep their canonical text. */
  function BaseOf(k: Kind, name: Arg): Arg {
    match k
    case StrDefault => name
    case StrUnique(base) => base
    case StrFixed(text) => text
    case IntFixed(_, v) => Text(v)
    case _ => []
  }

  /** The text that parse_integer_fixed keeps in the argument is the one stored. */
  lemma KeptTextIsBase(kept: Arg, s: Sign, parsed: int, name: Arg)
    requires kept == Text(parsed) && InRange(s, parsed)
    ensures BaseOf(IntFixed(s, parsed), name) == kept && |kept| <= 20
  {
    TextLength(parsed);
  }

  /** The type of a plain column; the type of fixed text counts the terminator. */
  function PlainType(k: Kind, grp: Option<Grp>, rows: nat, name: Arg): SqlType
  {
    var count := GroupCount(grp, rows);
    match k
    case IntDefault(s) => Integer(TypeOf(s, count))
    case IntUnique(s) => Integer(TypeOf(s, count))
    case IntFixed(s, v) => Integer(if v == 0 then Tiny(Signed) else TypeOf(s, v))
    case StrDefault => Varchar(|name| + UintDigitCount(count))
    case StrUnique(base) => Varchar(|base| + UintDigitCount(count))
    case StrFixed(text) => Char(|text| + 1)
    case StrUuid => Char(UUID_STRING_LENGTH)
    case StrHash(length) => Char(length)
    case StrNamesFirst => Varchar(FIRST_NAME_LENGTH_MAX)
    case StrNamesLast => Varchar(LAST_NAME_LENGTH_MAX)
    case StrNamesFull => Varchar(FULL_NAME_LENGTH_MAX)
    case TimeDefault(c) => Moment(c)
    case TimeUnique(c) => Moment(c)
    case TimeFixed(c) => Moment(c)
    case _ => Integer(PlanOf(k, ByGroup(grp, false)).kind)
  }

  /** What a JOIN reserves for a member; a fixed integer counts its terminator, fixed text not. */
  function JoinLength(k: Kind, grp: Option<Grp>, rows: nat, name: Arg): nat
  {
    var count := GroupCount(grp, rows);
    match k
    case IntDefault(_) => UintDigitCount(count)
    case IntUnique(_) => UintDigitCount(count)
    case IntFixed(_, v) => |Text(v)| + 1
    case StrDefault => |name| + UintDigitCount(count)
    case StrUnique(base) => |base| + UintDigitCount(count)
    case StrFixed(text) => |text|
    case StrUuid => UUID_STRING_LENGTH
    case StrHash(length) => length
    case StrNamesFirst => FIRST_NAME_LENGTH_MAX
    case StrNamesLast => LAST_NAME_LENGTH_MAX
    case StrNamesFull => FULL_NAME_LENGTH_MAX
    case TimeDefault(_) => LENGTH_TIME_STRING
    case TimeUnique(_) => LENGTH_TIME_STRING
    case TimeFixed(_) => LENGTH_TIME_STRING
    case _ => PlanOf(k, false).length
  }

  /** Whether the setter selects VARCHAR for the whole JOIN. */
  predicate Varies(k: Kind) {
    !(k.IntFixed? || k.StrFixed? || k.StrUuid? || k.StrHash? || k.TimeDefault? || k.TimeUnique? || k.TimeFixed?)
  }

  /** What a member asks for. */
  function Asks(k: Kind, grp: Option<Grp>, rows: nat, inJoin: bool): Shared
  {
    match k
    case IntDefault(_) => Shared(GroupCount(grp, rows), {})
    case IntUnique(_) => Shared(GroupCount(grp, rows), {})
    case StrDefault => Shared(GroupCount(grp, rows), {})
    case StrUnique(_) => Shared(GroupCount(grp, rows), {})
    case StrUuid => Shared(0, {Rand32, UuidCtor})
    case StrNamesFirst => Shared(0, {Rand32})
    case StrNamesLast => Shared(0, {Rand32})
    case StrNamesFull => Shared(0, {Rand32})
    case _ =>
      if !IsRandom(k) then Shared(0, {})
      else
        var falls := FallsThrough(k, grp, inJoin);
        var fallen :=
          if falls && k.low == INT32_MIN then {Rand32, Rand64}
          else if falls && k.low == INT64_MIN then {Rand64}
          else {};
        Shared(0, fallen + {WidthFlag(PlanOf(k, ByGroup(grp, inJoin)).flag)})
  }

  /** A column_* setter. */
  function SetColumn(c: ColSpec, rows: nat): ColSpec
    requires c.name.Some?
  {
    c.(base := BaseOf(c.kind, c.name.value), plan := PlanFor(c.kind, c.grp, false), build := BuildOf(c.kind, c.grp, false),
       kindOf := PlainType(c.kind, c.grp, rows, c.name.value))
  }

  /** A join_* setter, apart from the accumulator: it clears the name, and leaves the type alone
      but for a full 64-bit range from the bottom. */
  function SetJoin(c: ColSpec, baseName: Arg): ColSpec
  {
    c.(name := None, base := BaseOf(c.kind, baseName), plan := PlanFor(c.kind, c.grp, true), build := BuildOf(c.kind, c.grp, true),
       kindOf := if c.kind == IntFrom(Signed, INT64_MIN) then Integer(Big(Signed)) else c.kindOf)
  }

  /** The accumulator's side of a join_* setter. */
  function Add(j: Join, c: ColSpec, rows: nat, baseName: Arg): Join
  {
    Join(j.length + JoinLength(c.kind, c.grp, rows, baseName), j.varies || Varies(c.kind))
  }

  /** join_spec_state_close. */
  function Closed(j: Join): SqlType {
    if j.length > CHAR_LENGTH_MAX || j.varies then Varchar(j.length) else Char(j.length)
  }

  // ---------- what the columns of a table hold ----------

  /** One plain column, with everything that matters about it. */
  function PlainSpec(name: Arg, m: Member, rows: nat): ColSpec {
    SetColumn(ColSpec(Some(name), m.kind, m.grp, [], None, NoBuild, NoType), rows)
  }

  /** One member of a JOIN, with neither name nor type. */
  function MemberSpec(baseName: Arg, m: Member): ColSpec {
    SetJoin(ColSpec(None, m.kind, m.grp, [], None, NoBuild, NoType), baseName).(kindOf := NoType)
  }

  /** What the setters do, case by case. */
  datatype Setters = Setters(
    plain: (Arg, Member, nat) -> ColSpec,
    member: (Arg, Member) -> ColSpec,
    added: (Arg, Member, nat) -> nat,
    asks: (Member, nat, bool) -> Shared)

  function Standard(): Setters {
    Setters(
      (name: Arg, m: Member, rows: nat) => PlainSpec(name, m, rows),
      (name: Arg, m: Member) => MemberSpec(name, m),
      (name: Arg, m: Member, rows: nat) => JoinLength(m.kind, m.grp, rows, name),
      (m: Member, rows: nat, inJoin: bool) => Asks(m.kind, m.grp, rows, inJoin))
  }

  /** The JOIN accumulator after some members. */
  function TotalBy(s: Setters, name: Arg, rows: nat, ms: seq<Member>): Join {
    if ms == [] then Join(0, false)
    else
      var sum := TotalBy(s, name, rows, ms[..|ms| - 1]);
      Join(sum.length + s.added(name, ms[|ms| - 1], rows), sum.varies || Varies(ms[|ms| - 1].kind))
  }

  function MembersBy(s: Setters, name: Arg, ms: seq<Member>): (cs: seq<ColSpec>)
    ensures |cs| == |ms|
  {
    if ms == [] then [] else MembersBy(s, name, ms[..|ms| - 1]) + [s.member(name, ms[|ms| - 1])]
  }

  /** The first member of a JOIN has its name back and the type of the whole. */
  function Named(c: ColSpec, name: Arg, join: Join): ColSpec {
    c.(name := Some(name), kindOf := Closed(join))
  }

  function BodyBy(s: Setters, name: Arg, b: Body, rows: nat): (cs: seq<ColSpec>)
    ensures |cs| == Cells(b)
  {
    match b
    case Plain(m) => [s.plain(name, m, rows)]
    case Joined(ms) =>
      var members := MembersBy(s, name, ms);
      if ms == [] then [] else members[0 := Named(members[0], name, TotalBy(s, name, rows, ms))]
  }

  /** How many ColSpecs a body takes. */
  function Cells(b: Body): nat {
    if b.Plain? then 1 else |b.members|
  }

  function CellsBy(s: Setters, rows: nat): Col -> seq<ColSpec> {
    (c: Col) => BodyBy(s, c.name, c.body, rows)
  }

  function Flatten<T, U>(one: T -> seq<U>, xs: seq<T>): seq<U> {
    if xs == [] then [] else Flatten(one, xs[..|xs| - 1]) + one(xs[|xs| - 1])
  }

  function Total(ms: seq<Member>, rows: nat, name: Arg): Join {
    TotalBy(Standard(), name, rows, ms)
  }

  // ---------- accumulated requests ----------

  const Nothing: Shared := Shared(0, {})

  /** Accumulates what the elements ask for. */
  function Fold<T>(share: T -> Shared, xs: seq<T>): Shared {
    if xs == [] then Nothing else Merge(Fold(share, xs[..|xs| - 1]), share(xs[|xs| - 1]))
  }

  lemma MergeAssociates(a: Shared, b: Shared, c: Shared)
    ensures Merge(Merge(a, b), c) == Merge(a, Merge(b, c))
  {
  }

  lemma FoldSnoc<T>(share: T -> Shared, xs: seq<T>, x: T)
    ensures Fold(share, xs + [x]) == Merge(Fold(share, xs), share(x))
  {
    assert (xs + [x])[..|xs|] == xs;
  }

  function JoinAsks(s: Setters, rows: nat): Member -> Shared {
    (m: Member) => s.asks(m, rows, true)
  }

  function BodyShare(s: Setters, b: Body, rows: nat): Shared {
    match b
    case Plain(m) => s.asks(m, rows, false)
    case Joined(ms) => Fold(JoinAsks(s, rows), ms)
  }

  function ColShares(s: Setters, rows: nat): Col -> Shared {
    (c: Col) => BodyShare(s, c.body, rows)
  }

  function TblShares(s: Setters): Tbl -> Shared {
    (t: Tbl) => Fold(ColShares(s, t.rows), t.cols)
  }

  /** What matters of a stored ColSpec: the type of an unnamed one never does. */
  function Seen(c: ColSpec): ColSpec {
    if c.name.None? then c.(kindOf := NoType) else c
  }
}
