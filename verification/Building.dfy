/** Whole columns: what every build function writes in the rows of a table, and that it is what the kind
    and the group of the member ask for. */
module Building {
  import opened Octets
  import opened Numbers
  import opened Specs
  import opened Random
  import opened Columns
  import opened Rendering
  import opened Groups
  import opened Resources
  import JoinCells
  import ColumnTypes

  /** What the run adds: the rows of a row block, and what texts the clocks show. */
  datatype Surroundings = Surroundings(block: nat, shows: (Clock, Arg) -> bool)

  // ---------- by build function ----------

  predicate IsGrouped(b: Build) {
    match b
    case UniqueInt(_, grouped) => grouped
    case RandomInt(_, _, grouped) => grouped
    case UniqueStr(grouped) => grouped
    case Uuid(grouped) => grouped
    case Hash(grouped) => grouped
    case Name(_, grouped) => grouped
    case UniqueTime(_, grouped) => grouped
    case _ => false
  }

  predicate IsFixed(b: Build) {
    b.FixedInt? || b.FixedStr? || b.FixedTime?
  }

  /** The generator is of the sign, and in the form, that the build function reads. */
  predicate Reads(sign: Sign, scale: Scale, c: ColSpec) {
    && c.plan.Some? && c.plan.value.gen.sign == sign
    && match scale
       case Open => c.plan.value.gen.Unbound?
       case From => c.plan.value.gen.Bound? && c.kind.IntFrom?
       case Upto => c.plan.value.gen.Bound? && c.kind.IntUpto?
       case Range => c.plan.value.gen.Bound? && c.kind.IntRange?
  }

  /** What the build function makes, one text after the other. */
  ghost predicate Makes(env: Surroundings, c: ColSpec, texts: nat -> Arg) {
    match c.build
    case NoBuild => false
    case UniqueInt(_, _) => forall k: nat :: texts(k) == Decimal(k + 1)
    case FixedInt(_) => forall k: nat :: texts(k) == c.base
    case RandomInt(sign, scale, _) => Reads(sign, scale, c) && forall k: nat :: PrintsText(c.plan.value.gen, texts(k))
    case UniqueStr(_) => forall k: nat :: texts(k) == c.base + Decimal(k + 1)
    case FixedStr => forall k: nat :: texts(k) == c.base
    case Uuid(_) => forall k: nat :: |texts(k)| == UUID_STRING_LENGTH
    case Hash(_) => c.kind.StrHash? && forall k: nat :: |texts(k)| == c.kind.length
    case Name(names, _) => forall k: nat :: 1 <= |texts(k)| <= NameLengthMax(names)
    case UniqueTime(clock, _) => forall k: nat :: env.shows(clock, texts(k))
    case FixedTime(clock) => forall k: nat :: env.shows(clock, texts(k))
  }

  /** Ungrouped times tick from row to row, but not from one row block to the next. */
  function TickOf(rows: nat, block: nat, row: nat): nat
    requires block >= 1
  {
    LastStartedIsLow(Blocks(rows, block), |Blocks(rows, block)|, row);
    row - GroupOf(Blocks(rows, block), row)
  }

  /** Which of its texts a build function writes in a row. */
  function TextIn(env: Surroundings, c: ColSpec, rows: nat, row: nat): nat
    requires env.block >= 1 && (IsGrouped(c.build) ==> c.grp.Some? && 1 <= c.grp.value.count <= rows)
  {
    if IsGrouped(c.build) then GroupOf(GroupSizes(c.grp.value.part, c.grp.value.count, rows), row)
    else if c.build.UniqueTime? then TickOf(rows, env.block, row)
    else if IsFixed(c.build) then 0
    else row
  }

  ghost predicate WritesFrom(env: Surroundings, c: ColSpec, rows: nat, cells: seq<Arg>, texts: nat -> Arg)
    requires env.block >= 1 && (IsGrouped(c.build) ==> c.grp.Some? && 1 <= c.grp.value.count <= rows)
  {
    && Makes(env, c, texts)
    && forall row :: 0 <= row < |cells| ==> cells[row] == texts(TextIn(env, c, rows, row))
  }

  /** The stored build function may write this column. */
  ghost predicate Writes(env: Surroundings, c: ColSpec, rows: nat, cells: seq<Arg>)
    requires env.block >= 1
  {
    && |cells| == rows
    && (IsGrouped(c.build) ==> c.grp.Some? && 1 <= c.grp.value.count <= rows)
    && exists texts: nat -> Arg :: WritesFrom(env, c, rows, cells, texts)
  }

  // ---------- by kind and group ----------

  /** The texts that the kind calls for. */
  ghost predicate Supplies(env: Surroundings, name: Arg, k: Kind, byGroup: bool, texts: nat -> Arg) {
    match k
    case IntDefault(_) => forall n: nat :: texts(n) == Decimal(n + 1)
    case IntUnique(_) => forall n: nat :: texts(n) == Decimal(n + 1)
    case IntFixed(_, v) => forall n: nat :: texts(n) == Text(v)
    case StrDefault => forall n: nat :: texts(n) == name + Decimal(n + 1)
    case StrUnique(base) => forall n: nat :: texts(n) == base + Decimal(n + 1)
    case StrFixed(text) => forall n: nat :: texts(n) == text
    case StrUuid => forall n: nat :: |texts(n)| == 36
    case StrHash(length) => forall n: nat :: |texts(n)| == length
    case StrNamesFirst => forall n: nat :: 1 <= |texts(n)| <= 11
    case StrNamesLast => forall n: nat :: 1 <= |texts(n)| <= 10
    case StrNamesFull => forall n: nat :: 1 <= |texts(n)| <= 36
    case TimeDefault(clock) => forall n: nat :: env.shows(clock, texts(n))
    case TimeUnique(clock) => forall n: nat :: env.shows(clock, texts(n))
    case TimeFixed(clock) => forall n: nat :: env.shows(clock, texts(n))
    case _ => forall n: nat :: PrintsText(PlanOf(k, byGroup).gen, texts(n))
  }

  /** Rows of one group have one text; not so of the default strings of a JOIN. */
  predicate InGroups(m: Member, inJoin: bool) {
    m.grp.Some? && !Underasked(m, inJoin)
  }

  /** One text a group, or one a row, or one for all. */
  function TextFor(env: Surroundings, m: Member, rows: nat, inJoin: bool, row: nat): nat
    requires env.block >= 1 && MemberOk(m, rows)
  {
    if InGroups(m, inJoin) then GroupOf(GroupSizes(m.grp.value.part, m.grp.value.count, rows), row)
    else if m.kind.TimeDefault? || m.kind.TimeUnique? then TickOf(rows, env.block, row)
    else if IsFixedData(m.kind) then 0
    else row
  }

  ghost predicate AskedFrom(env: Surroundings, name: Arg, m: Member, rows: nat, inJoin: bool, cells: seq<Arg>, texts: nat -> Arg)
    requires env.block >= 1 && MemberOk(m, rows)
  {
    && Supplies(env, name, m.kind, ByGroup(m.grp, inJoin), texts)
    && forall row :: 0 <= row < |cells| ==> cells[row] == texts(TextFor(env, m, rows, inJoin, row))
  }

  /** The column is as asked for. */
  ghost predicate Asked(env: Surroundings, name: Arg, m: Member, rows: nat, inJoin: bool, cells: seq<Arg>)
    requires env.block >= 1 && MemberOk(m, rows)
  {
    |cells| == rows && exists texts: nat -> Arg :: AskedFrom(env, name, m, rows, inJoin, cells, texts)
  }

  lemma StoredGroup(name: Arg, m: Member, rows: nat, inJoin: bool)
    requires MemberOk(m, rows)
    ensures var c := Stored(name, m, rows, inJoin);
            && c.kind == m.kind && c.grp == m.grp && (IsGrouped(c.build) <==> InGroups(m, inJoin))
            && (c.build.UniqueTime? <==> m.kind.TimeDefault? || m.kind.TimeUnique?)
            && (IsFixed(c.build) <==> IsFixedData(m.kind))
  {
  }

  lemma CountedMakesIff(env: Surroundings, name: Arg, m: Member, rows: nat, inJoin: bool, texts: nat -> Arg)
    requires JoinCells.IsCounter(m.kind)
    ensures Makes(env, Stored(name, m, rows, inJoin), texts) <==>
            Supplies(env, name, m.kind, ByGroup(m.grp, inJoin), texts)
  {
  }

  lemma StringMakesIff(env: Surroundings, name: Arg, m: Member, rows: nat, inJoin: bool, texts: nat -> Arg)
    requires m.kind.StrUuid? || m.kind.StrHash? || JoinCells.IsNames(m.kind)
    ensures Makes(env, Stored(name, m, rows, inJoin), texts) <==>
            Supplies(env, name, m.kind, ByGroup(m.grp, inJoin), texts)
  {
  }

  lemma OtherMakesIff(env: Surroundings, name: Arg, m: Member, rows: nat, inJoin: bool, texts: nat -> Arg)
    requires IsFixedData(m.kind) || m.kind.TimeDefault? || m.kind.TimeUnique?
    ensures Makes(env, Stored(name, m, rows, inJoin), texts) <==>
            Supplies(env, name, m.kind, ByGroup(m.grp, inJoin), texts)
  {
  }

  lemma MakesIff(env: Surroundings, name: Arg, m: Member, rows: nat, inJoin: bool, texts: nat -> Arg)
    ensures Makes(env, Stored(name, m, rows, inJoin), texts) <==>
            Supplies(env, name, m.kind, ByGroup(m.grp, inJoin), texts)
  {
    if IsRandom(m.kind) {
      RandomMakesIff(env, name, m, rows, inJoin, texts);
    } else if JoinCells.IsCounter(m.kind) {
      CountedMakesIff(env, name, m, rows, inJoin, texts);
    } else if IsFixedData(m.kind) || m.kind.TimeDefault? || m.kind.TimeUnique? {
      OtherMakesIff(env, name, m, rows, inJoin, texts);
    } else {
      StringMakesIff(env, name, m, rows, inJoin, texts);
    }
  }

  lemma RandomMakesIff(env: Surroundings, name: Arg, m: Member, rows: nat, inJoin: bool, texts: nat -> Arg)
    requires IsRandom(m.kind)
    ensures Makes(env, Stored(name, m, rows, inJoin), texts) <==>
            Supplies(env, name, m.kind, ByGroup(m.grp, inJoin), texts)
  {
    RandomReads(name, m, rows, inJoin);
  }

  /** A random integer is built from the generator that its setter has stored. */
  lemma RandomReads(name: Arg, m: Member, rows: nat, inJoin: bool)
    requires IsRandom(m.kind)
    ensures var c := Stored(name, m, rows, inJoin);
            && c.build.RandomInt? && c.plan == Some(PlanOf(m.kind, ByGroup(m.grp, inJoin)))
            && Reads(c.build.sign, c.build.scale, c)
  {
    PlanSign(m.kind, ByGroup(m.grp, inJoin));
  }

  lemma PlanSign(k: Kind, grouped: bool)
    requires IsRandom(k)
    ensures var g := PlanOf(k, grouped).gen;
            g.sign == k.sign && (g.Bound? ==> !k.IntRandom?) && (k.IntFrom? && k.sign.Signed? && grouped ==> g.Bound?)
  {
  }

  lemma TextInIs(env: Surroundings, name: Arg, m: Member, rows: nat, inJoin: bool, row: nat)
    requires env.block >= 1 && MemberOk(m, rows)
    requires var c := Stored(name, m, rows, inJoin); IsGrouped(c.build) ==> c.grp.Some? && 1 <= c.grp.value.count <= rows
    ensures TextIn(env, Stored(name, m, rows, inJoin), rows, row) == TextFor(env, m, rows, inJoin, row)
  {
    StoredGroup(name, m, rows, inJoin);
  }

  /** The stored build function writes exactly the columns that the member asks for. */
  lemma WritesIff(env: Surroundings, name: Arg, m: Member, rows: nat, inJoin: bool, cells: seq<Arg>)
    requires env.block >= 1 && MemberOk(m, rows)
    ensures Writes(env, Stored(name, m, rows, inJoin), rows, cells) <==> Asked(env, name, m, rows, inJoin, cells)
  {
    var c := Stored(name, m, rows, inJoin);
    StoredGroup(name, m, rows, inJoin);
    forall row: nat ensures TextIn(env, c, rows, row) == TextFor(env, m, rows, inJoin, row) {
      TextInIs(env, name, m, rows, inJoin, row);
    }
    forall texts: nat -> Arg
      ensures Makes(env, c, texts) <==> Supplies(env, name, m.kind, ByGroup(m.grp, inJoin), texts)
    {
      MakesIff(env, name, m, rows, inJoin, texts);
    }
    if Writes(env, c, rows, cells) {
      var texts: nat -> Arg :| WritesFrom(env, c, rows, cells, texts);
      assert AskedFrom(env, name, m, rows, inJoin, cells, texts);
    }
    if Asked(env, name, m, rows, inJoin, cells) {
      var texts: nat -> Arg :| AskedFrom(env, name, m, rows, inJoin, cells, texts);
      assert WritesFrom(env, c, rows, cells, texts);
    }
  }

  // ---------- groups ----------

  function Different(cells: seq<Arg>): set<Arg> {
    set a | a in cells
  }

  function Sizes(m: Member, rows: nat): seq<nat>
    requires m.grp.Some? && MemberOk(m, rows)
  {
    GroupSizes(m.grp.value.part, m.grp.value.count, rows)
  }

  /** Rows of one group have one text. */
  predicate OneAGroup(sizes: seq<nat>, cells: seq<Arg>) {
    forall i: nat, j: nat :: i < |cells| && j < |cells| && GroupOf(sizes, i) == GroupOf(sizes, j) ==> cells[i] == cells[j]
  }

  function FirstTexts(texts: nat -> Arg, n: nat): (firsts: set<Arg>)
    ensures |firsts| <= n && forall k: nat :: k < n ==> texts(k) in firsts
  {
    if n == 0 then {} else FirstTexts(texts, n - 1) + {texts(n - 1)}
  }

  lemma FewerDifferent<T>(few: set<T>, many: set<T>)
    requires few <= many
    ensures |few| <= |many|
  {
    assert many == few + (many - few);
  }

  /** A column in groups has one text a group, and so at most as many different cells as groups. */
  lemma GroupedCells(env: Surroundings, name: Arg, m: Member, rows: nat, inJoin: bool, cells: seq<Arg>)
    requires env.block >= 1 && MemberOk(m, rows) && InGroups(m, inJoin)
    requires Writes(env, Stored(name, m, rows, inJoin), rows, cells)
    ensures IsPartition(Sizes(m, rows), m.grp.value.count, rows) && OneAGroup(Sizes(m, rows), cells)
    ensures |Different(cells)| <= m.grp.value.count
  {
    WritesIff(env, name, m, rows, inJoin, cells);
    SizesPartition(m.grp.value.part, m.grp.value.count, rows);
    var texts: nat -> Arg :| AskedFrom(env, name, m, rows, inJoin, cells, texts);
    var sizes := Sizes(m, rows);
    forall row: nat | row < |cells| ensures cells[row] in FirstTexts(texts, m.grp.value.count) {
      GroupsAreOrdered(sizes, row, row);
      assert cells[row] == texts(GroupOf(sizes, row));
    }
    FewerDifferent(Different(cells), FirstTexts(texts, m.grp.value.count));
  }

  /** Of names, UUIDs and hashes only the length is modelled, so that any text of it may stand in any row,
      like any number of a random integer. */
  predicate IsFree(k: Kind) {
    k.StrUuid? || k.StrHash? || JoinCells.IsNames(k) || IsRandom(k)
  }

  ghost predicate AllPrint(c: ColSpec, rows: nat, cells: seq<Arg>) {
    forall row :: 0 <= row < |cells| ==> Prints(c, rows, cells[row])
  }

  /** One after the other, each is a text that the column prints. */
  lemma FreeMakes(env: Surroundings, name: Arg, m: Member, rows: nat, inJoin: bool, texts: nat -> Arg)
    requires IsFree(m.kind)
    ensures var c := Stored(name, m, rows, inJoin);
            Makes(env, c, texts) <==> forall k: nat :: Prints(c, rows, texts(k))
  {
    if IsRandom(m.kind) {
      RandomReads(name, m, rows, inJoin);
    }
  }

  /** The texts by group, or by row. */
  function TextsBy(sizes: seq<nat>, grouped: bool, cells: seq<Arg>): nat -> Arg
    requires cells != [] && (grouped ==> Sum(sizes) == |cells| && NoneEmpty(sizes))
  {
    (k: nat) =>
      if grouped && k < |sizes| then
        FirstOfGroup(sizes, k);
        cells[RowsBefore(sizes, k)]
      else if !grouped && k < |cells| then cells[k]
      else cells[0]
  }

  lemma TextsByServe(sizes: seq<nat>, grouped: bool, cells: seq<Arg>, row: nat)
    requires row < |cells| && (grouped ==> Sum(sizes) == |cells| && NoneEmpty(sizes) && OneAGroup(sizes, cells))
    ensures TextsBy(sizes, grouped, cells)(if grouped then GroupOf(sizes, row) else row) == cells[row]
  {
    if grouped {
      GroupsAreOrdered(sizes, row, row);
      FirstOfGroup(sizes, GroupOf(sizes, row));
    }
  }

  lemma TextsByPrint(c: ColSpec, rows: nat, sizes: seq<nat>, grouped: bool, cells: seq<Arg>)
    requires cells != [] && AllPrint(c, rows, cells) && (grouped ==> Sum(sizes) == |cells| && NoneEmpty(sizes))
    ensures forall k: nat :: Prints(c, rows, TextsBy(sizes, grouped, cells)(k))
  {
    forall k: nat ensures TextsBy(sizes, grouped, cells)(k) in cells {
      if grouped && k < |sizes| {
        FirstOfGroup(sizes, k);
      }
    }
  }

  function SizesIfAny(m: Member, rows: nat): (sizes: seq<nat>)
    requires MemberOk(m, rows)
    ensures m.grp.Some? ==> sizes == Sizes(m, rows) && Sum(sizes) == rows && NoneEmpty(sizes)
  {
    if m.grp.None? then []
    else
      SizesPartition(m.grp.value.part, m.grp.value.count, rows);
      Sizes(m, rows)
  }

  lemma FreeTextFor(env: Surroundings, m: Member, rows: nat, inJoin: bool, row: nat)
    requires env.block >= 1 && MemberOk(m, rows) && IsFree(m.kind)
    ensures TextFor(env, m, rows, inJoin, row) == if m.grp.Some? then GroupOf(SizesIfAny(m, rows), row) else row
  {
  }

  /** Without a group such a column takes any texts, row by row; with one, any text a group. */
  lemma FreeCellsIff(env: Surroundings, name: Arg, m: Member, rows: nat, inJoin: bool, cells: seq<Arg>)
    requires env.block >= 1 && MemberOk(m, rows) && IsFree(m.kind) && rows >= 1
    ensures var c := Stored(name, m, rows, inJoin);
            Writes(env, c, rows, cells) <==>
            |cells| == rows && AllPrint(c, rows, cells) && (m.grp.Some? ==> OneAGroup(Sizes(m, rows), cells))
  {
    var c, sizes := Stored(name, m, rows, inJoin), SizesIfAny(m, rows);
    forall row: nat ensures TextFor(env, m, rows, inJoin, row) == if m.grp.Some? then GroupOf(sizes, row) else row {
      FreeTextFor(env, m, rows, inJoin, row);
    }
    if Writes(env, c, rows, cells) {
      FreeCellsPrint(env, name, m, rows, inJoin, cells);
      if m.grp.Some? {
        GroupedCells(env, name, m, rows, inJoin, cells);
      }
    } else if |cells| == rows && AllPrint(c, rows, cells) && (m.grp.Some? ==> OneAGroup(sizes, cells)) {
      var texts := TextsBy(sizes, m.grp.Some?, cells);
      TextsByPrint(c, rows, sizes, m.grp.Some?, cells);
      FreeMakes(env, name, m, rows, inJoin, texts);
      MakesIff(env, name, m, rows, inJoin, texts);
      forall row: nat | row < rows ensures cells[row] == texts(TextFor(env, m, rows, inJoin, row)) {
        TextsByServe(sizes, m.grp.Some?, cells, row);
      }
      assert AskedFrom(env, name, m, rows, inJoin, cells, texts);
      WritesIff(env, name, m, rows, inJoin, cells);
      assert false;
    }
  }

  lemma FreeCellsPrint(env: Surroundings, name: Arg, m: Member, rows: nat, inJoin: bool, cells: seq<Arg>)
    requires env.block >= 1 && MemberOk(m, rows) && IsFree(m.kind)
    requires Writes(env, Stored(name, m, rows, inJoin), rows, cells)
    ensures AllPrint(Stored(name, m, rows, inJoin), rows, cells)
  {
    var c := Stored(name, m, rows, inJoin);
    var texts: nat -> Arg :| WritesFrom(env, c, rows, cells, texts);
    FreeMakes(env, name, m, rows, inJoin, texts);
  }

  ghost predicate IsTextBetween(low: int, high: int, a: Arg) {
    exists v: int :: low <= v <= high && a == Text(v)
  }

  lemma SoundPrints(name: Arg, m: Member, rows: nat, inJoin: bool, a: Arg)
    requires IsRandom(m.kind) && KindOk(m.kind) && Sound(m.kind, ByGroup(m.grp, inJoin))
    ensures Prints(Stored(name, m, rows, inJoin), rows, a) <==> IsTextBetween(Low(m.kind), High(m.kind), a)
  {
    var g := PlanOf(m.kind, ByGroup(m.grp, inJoin)).gen;
    RandomIsSoundIff(m.kind, ByGroup(m.grp, inJoin));
    RandomReads(name, m, rows, inJoin);
    if IsTextBetween(Low(m.kind), High(m.kind), a) {
      var v: int :| Low(m.kind) <= v <= High(m.kind) && a == Text(v);
      assert Produces(g, v);
    }
  }

  /** Where the generator is exact, a random column is any choice from the interval asked for, by row or by
      group. */
  lemma RandomCellsIff(env: Surroundings, name: Arg, m: Member, rows: nat, inJoin: bool, cells: seq<Arg>)
    requires env.block >= 1 && MemberOk(m, rows) && IsRandom(m.kind) && Sound(m.kind, ByGroup(m.grp, inJoin)) && rows >= 1
    ensures Writes(env, Stored(name, m, rows, inJoin), rows, cells) <==>
            && |cells| == rows && (forall row :: 0 <= row < rows ==> IsTextBetween(Low(m.kind), High(m.kind), cells[row]))
            && (m.grp.Some? ==> OneAGroup(Sizes(m, rows), cells))
  {
    forall row | 0 <= row < |cells|
      ensures Prints(Stored(name, m, rows, inJoin), rows, cells[row]) <==> IsTextBetween(Low(m.kind), High(m.kind), cells[row])
    {
      SoundPrints(name, m, rows, inJoin, cells[row]);
    }
    FreeCellsIff(env, name, m, rows, inJoin, cells);
  }

  // ---------- counters ----------

  /** What a counter or counted string puts before the number. */
  function Prefix(name: Arg, k: Kind): Arg {
    match k
    case StrDefault => name
    case StrUnique(base) => base
    case _ => []
  }

  lemma CountedSupplies(env: Surroundings, name: Arg, k: Kind, byGroup: bool, texts: nat -> Arg)
    requires JoinCells.IsCounter(k)
    ensures Supplies(env, name, k, byGroup, texts) <==> forall n: nat :: texts(n) == Prefix(name, k) + Decimal(n + 1)
  {
    forall n: nat ensures [] + Decimal(n) == Decimal(n) {
    }
  }

  function CountedText(env: Surroundings, name: Arg, m: Member, rows: nat, inJoin: bool, row: nat): Arg
    requires env.block >= 1 && MemberOk(m, rows)
  {
    Prefix(name, m.kind) + Decimal(TextFor(env, m, rows, inJoin, row) + 1)
  }

  /** A counted column: the number of the group, or of the row. */
  lemma CountedCellsIff(env: Surroundings, name: Arg, m: Member, rows: nat, inJoin: bool, cells: seq<Arg>)
    requires env.block >= 1 && MemberOk(m, rows) && JoinCells.IsCounter(m.kind)
    ensures Asked(env, name, m, rows, inJoin, cells) <==>
            |cells| == rows && forall row :: 0 <= row < rows ==> cells[row] == CountedText(env, name, m, rows, inJoin, row)
  {
    if Asked(env, name, m, rows, inJoin, cells) {
      var texts: nat -> Arg :| AskedFrom(env, name, m, rows, inJoin, cells, texts);
      CountedSupplies(env, name, m.kind, ByGroup(m.grp, inJoin), texts);
    }
    var counted := (n: nat) => Prefix(name, m.kind) + Decimal(n + 1);
    CountedSupplies(env, name, m.kind, ByGroup(m.grp, inJoin), counted);
    if |cells| == rows && forall row :: 0 <= row < rows ==> cells[row] == CountedText(env, name, m, rows, inJoin, row) {
      assert AskedFrom(env, name, m, rows, inJoin, cells, counted);
    }
  }

  lemma CountedIsInjective(base: Arg, i: nat, j: nat)
    requires base + Decimal(i) == base + Decimal(j)
    ensures i == j
  {
    assert (base + Decimal(i))[|base|..] == Decimal(i) && (base + Decimal(j))[|base|..] == Decimal(j);
    ColumnTypes.DecimalIsInjective(i, j);
  }

  lemma CountedTextsDiffer(env: Surroundings, name: Arg, m: Member, rows: nat, inJoin: bool, i: nat, j: nat)
    requires env.block >= 1 && MemberOk(m, rows) && JoinCells.IsCounter(m.kind)
    ensures CountedText(env, name, m, rows, inJoin, i) == CountedText(env, name, m, rows, inJoin, j) <==>
            if InGroups(m, inJoin) then GroupOf(Sizes(m, rows), i) == GroupOf(Sizes(m, rows), j) else i == j
  {
    var k, l := TextFor(env, m, rows, inJoin, i), TextFor(env, m, rows, inJoin, j);
    if CountedText(env, name, m, rows, inJoin, i) == CountedText(env, name, m, rows, inJoin, j) {
      CountedIsInjective(Prefix(name, m.kind), k + 1, l + 1);
    }
  }

  /** Two rows of a counted column are equal if and only if they are in one group; without a group, and for
      the default strings of a JOIN even with one, all rows differ. */
  lemma CountedCellsDiffer(env: Surroundings, name: Arg, m: Member, rows: nat, inJoin: bool, cells: seq<Arg>, i: nat, j: nat)
    requires env.block >= 1 && MemberOk(m, rows) && JoinCells.IsCounter(m.kind)
    requires Writes(env, Stored(name, m, rows, inJoin), rows, cells) && i < rows && j < rows
    ensures cells[i] == cells[j] <==>
            if InGroups(m, inJoin) then GroupOf(Sizes(m, rows), i) == GroupOf(Sizes(m, rows), j) else i == j
  {
    WritesIff(env, name, m, rows, inJoin, cells);
    CountedCellsIff(env, name, m, rows, inJoin, cells);
    CountedTextsDiffer(env, name, m, rows, inJoin, i, j);
  }

  // ---------- times and fixed data ----------

  lemma TimeSupplies(env: Surroundings, name: Arg, k: Kind, byGroup: bool, texts: nat -> Arg, clock: Clock)
    requires ColumnTypes.IsTimeOf(k, clock)
    ensures Supplies(env, name, k, byGroup, texts) <==> forall n: nat :: env.shows(clock, texts(n))
  {
  }

  /** Every cell of a time column is in the format of the clock of its kind. */
  lemma TimeCellsShow(env: Surroundings, name: Arg, m: Member, rows: nat, inJoin: bool, cells: seq<Arg>, clock: Clock)
    requires env.block >= 1 && MemberOk(m, rows) && ColumnTypes.IsTimeOf(m.kind, clock)
    requires Writes(env, Stored(name, m, rows, inJoin), rows, cells)
    ensures forall row :: 0 <= row < rows ==> env.shows(clock, cells[row])
  {
    WritesIff(env, name, m, rows, inJoin, cells);
    var texts: nat -> Arg :| AskedFrom(env, name, m, rows, inJoin, cells, texts);
    TimeSupplies(env, name, m.kind, ByGroup(m.grp, inJoin), texts, clock);
  }

  /** A row has the time of the row before if and only if it starts a row block. */
  lemma TicksStopIff(rows: nat, block: nat, row: nat)
    requires block >= 1 && row + 1 < rows
    ensures TickOf(rows, block, row + 1) == TickOf(rows, block, row) <==>
            exists b: nat :: b < |Blocks(rows, block)| && row + 1 == RowsBefore(Blocks(rows, block), b)
    ensures TickOf(rows, block, row) <= TickOf(rows, block, row + 1) <= TickOf(rows, block, row) + 1
  {
    var sizes := Blocks(rows, block);
    BlocksPartition(rows, block);
    NextInGroup(sizes, row);
  }

  /** Two rows of ungrouped times that follow one another have the same tick. */
  predicate TicksStop(rows: nat, block: nat, row: nat)
    requires block >= 1
  {
    row + 1 < rows && TickOf(rows, block, row + 1) == TickOf(rows, block, row)
  }

  /** That happens unless all rows of the table are in one row block. */
  lemma TimesRepeatIff(rows: nat, block: nat)
    requires block >= 1 && rows >= 1
    ensures (exists row: nat :: TicksStop(rows, block, row)) <==> block < rows
  {
    var sizes := Blocks(rows, block);
    MoreBlocksIff(rows, block);
    BlocksPartition(rows, block);
    assert RowsBefore(sizes, 0) == 0 && RowsBefore(sizes, 1) == sizes[0];
    if block < rows {
      var row: nat := sizes[0] - 1;
      FirstOfGroup(sizes, 1);
      TicksStopIff(rows, block, row);
      assert TicksStop(rows, block, row);
    }
    if row: nat :| TicksStop(rows, block, row) {
      TicksStopIff(rows, block, row);
    }
  }

  /** A run with one table of 8 rows has row blocks of two: the third of its unique times is the second
      again. */
  lemma RepeatedTimeWitness()
    ensures TicksStop(8, BlockRows(8), 1)
  {
    var sizes := Blocks(8, 2);
    assert sizes == [2, 2, 2, 2];
    assert RowsBefore(sizes, 1) == RowsBefore(sizes, 0) + 2 == 2;
    TicksStopIff(8, 2, 1);
  }

  /** Fixed data is one text throughout. */
  lemma FixedCellsAreEqual(env: Surroundings, name: Arg, m: Member, rows: nat, inJoin: bool, cells: seq<Arg>, i: nat, j: nat)
    requires env.block >= 1 && MemberOk(m, rows) && IsFixedData(m.kind)
    requires Writes(env, Stored(name, m, rows, inJoin), rows, cells) && i < rows && j < rows
    ensures cells[i] == cells[j]
    ensures m.kind.IntFixed? ==> cells[i] == Text(m.kind.value)
    ensures m.kind.StrFixed? ==> cells[i] == m.kind.text
  {
    WritesIff(env, name, m, rows, inJoin, cells);
    var texts: nat -> Arg :| AskedFrom(env, name, m, rows, inJoin, cells, texts);
    assert TextFor(env, m, rows, inJoin, i) == 0 && TextFor(env, m, rows, inJoin, j) == 0;
  }

  // ---------- the cells that may be written ----------

  /** With clocks that show any text of 19 characters. */
  function AnyTime(block: nat): Surroundings {
    Surroundings(block, (_, a: Arg) => |a| == 19)
  }

  lemma MakesPrinted(block: nat, name: Arg, m: Member, rows: nat, inJoin: bool, texts: nat -> Arg)
    requires !JoinCells.IsCounter(m.kind)
    ensures var c := Stored(name, m, rows, inJoin);
            Makes(AnyTime(block), c, texts) <==> forall k: nat :: Prints(c, rows, texts(k))
  {
    if IsFree(m.kind) {
      FreeMakes(AnyTime(block), name, m, rows, inJoin, texts);
    }
  }

  function Constant(a: Arg, rows: nat): (cells: seq<Arg>)
    ensures |cells| == rows && forall row :: 0 <= row < rows ==> cells[row] == a
  {
    seq(rows, _ => a)
  }

  /** Some column that the build function may write has this cell. */
  ghost predicate IsCell(block: nat, c: ColSpec, rows: nat, a: Arg)
    requires block >= 1
  {
    exists cells: seq<Arg> :: Writes(AnyTime(block), c, rows, cells) && a in cells
  }

  lemma CellPrints(block: nat, name: Arg, m: Member, rows: nat, inJoin: bool, a: Arg)
    requires block >= 1 && MemberOk(m, rows) && !JoinCells.IsCounter(m.kind)
    requires IsCell(block, Stored(name, m, rows, inJoin), rows, a)
    ensures Prints(Stored(name, m, rows, inJoin), rows, a)
  {
    var env, c := AnyTime(block), Stored(name, m, rows, inJoin);
    var cells: seq<Arg> :| Writes(env, c, rows, cells) && a in cells;
    var texts: nat -> Arg :| WritesFrom(env, c, rows, cells, texts);
    MakesPrinted(block, name, m, rows, inJoin, texts);
    var row :| 0 <= row < |cells| && cells[row] == a;
    assert a == texts(TextIn(env, c, rows, row));
  }

  lemma PrintedIsCell(block: nat, name: Arg, m: Member, rows: nat, inJoin: bool, a: Arg)
    requires block >= 1 && MemberOk(m, rows) && rows >= 1 && !JoinCells.IsCounter(m.kind)
    requires Prints(Stored(name, m, rows, inJoin), rows, a)
    ensures IsCell(block, Stored(name, m, rows, inJoin), rows, a)
  {
    var env, c, cells := AnyTime(block), Stored(name, m, rows, inJoin), Constant(a, rows);
    StoredGroup(name, m, rows, inJoin);
    var always := (k: nat) => a;
    MakesPrinted(block, name, m, rows, inJoin, always);
    assert WritesFrom(env, c, rows, cells, always);
    assert cells[0] == a;
    assert Writes(env, c, rows, cells) && a in cells;
  }

  /** How many different texts a counted column has. */
  function NumbersOf(m: Member, rows: nat, inJoin: bool): nat {
    if InGroups(m, inJoin) then m.grp.value.count else rows
  }

  lemma NumberIsReached(env: Surroundings, m: Member, rows: nat, inJoin: bool, k: nat) returns (row: nat)
    requires env.block >= 1 && MemberOk(m, rows) && JoinCells.IsCounter(m.kind) && k < NumbersOf(m, rows, inJoin)
    ensures row < rows && TextFor(env, m, rows, inJoin, row) == k
  {
    row := k;
    if InGroups(m, inJoin) {
      SizesPartition(m.grp.value.part, m.grp.value.count, rows);
      FirstOfGroup(Sizes(m, rows), k);
      row := RowsBefore(Sizes(m, rows), k);
    }
  }

  lemma NumberIsBelow(env: Surroundings, m: Member, rows: nat, inJoin: bool, row: nat)
    requires env.block >= 1 && MemberOk(m, rows) && JoinCells.IsCounter(m.kind) && row < rows
    ensures TextFor(env, m, rows, inJoin, row) < NumbersOf(m, rows, inJoin)
  {
    if InGroups(m, inJoin) {
      SizesPartition(m.grp.value.part, m.grp.value.count, rows);
      GroupsAreOrdered(Sizes(m, rows), row, row);
    }
  }

  ghost predicate IsNumbered(name: Arg, m: Member, rows: nat, inJoin: bool, a: Arg) {
    exists n: nat :: 1 <= n <= NumbersOf(m, rows, inJoin) && a == Prefix(name, m.kind) + Decimal(n)
  }

  lemma PrintsNumbered(name: Arg, m: Member, rows: nat, inJoin: bool, a: Arg)
    requires JoinCells.IsCounter(m.kind) && MemberOk(m, rows)
    ensures Prints(Stored(name, m, rows, inJoin), rows, a) <==> IsNumbered(name, m, rows, inJoin, a)
  {
    forall n: nat ensures [] + Decimal(n) == Decimal(n) {
    }
  }

  lemma CellIsNumbered(block: nat, name: Arg, m: Member, rows: nat, inJoin: bool, a: Arg)
    requires block >= 1 && MemberOk(m, rows) && JoinCells.IsCounter(m.kind)
    requires IsCell(block, Stored(name, m, rows, inJoin), rows, a)
    ensures IsNumbered(name, m, rows, inJoin, a)
  {
    var env, c := AnyTime(block), Stored(name, m, rows, inJoin);
    var cells: seq<Arg> :| Writes(env, c, rows, cells) && a in cells;
    var row :| 0 <= row < |cells| && cells[row] == a;
    WritesIff(env, name, m, rows, inJoin, cells);
    CountedCellsIff(env, name, m, rows, inJoin, cells);
    NumberIsBelow(env, m, rows, inJoin, row);
  }

  lemma NumberedIsCell(block: nat, name: Arg, m: Member, rows: nat, inJoin: bool, a: Arg)
    requires block >= 1 && MemberOk(m, rows) && JoinCells.IsCounter(m.kind)
    requires IsNumbered(name, m, rows, inJoin, a)
    ensures IsCell(block, Stored(name, m, rows, inJoin), rows, a)
  {
    var env, c := AnyTime(block), Stored(name, m, rows, inJoin);
    var n: nat :| 1 <= n <= NumbersOf(m, rows, inJoin) && a == Prefix(name, m.kind) + Decimal(n);
    var cells := seq(rows, row requires 0 <= row < rows => CountedText(env, name, m, rows, inJoin, row));
    CountedCellsIff(env, name, m, rows, inJoin, cells);
    WritesIff(env, name, m, rows, inJoin, cells);
    var row := NumberIsReached(env, m, rows, inJoin, n - 1);
    assert cells[row] == a;
    assert Writes(env, c, rows, cells) && a in cells;
  }

  /** What a column prints is what its build function may write in some cell of it. */
  lemma CellIffPrints(block: nat, name: Arg, m: Member, rows: nat, inJoin: bool, a: Arg)
    requires block >= 1 && MemberOk(m, rows) && rows >= 1
    ensures IsCell(block, Stored(name, m, rows, inJoin), rows, a) <==> Prints(Stored(name, m, rows, inJoin), rows, a)
  {
    var c := Stored(name, m, rows, inJoin);
    if JoinCells.IsCounter(m.kind) {
      PrintsNumbered(name, m, rows, inJoin, a);
      if IsCell(block, c, rows, a) {
        CellIsNumbered(block, name, m, rows, inJoin, a);
      } else if Prints(c, rows, a) {
        NumberedIsCell(block, name, m, rows, inJoin, a);
      }
    } else if IsCell(block, c, rows, a) {
      CellPrints(block, name, m, rows, inJoin, a);
    } else if Prints(c, rows, a) {
      PrintedIsCell(block, name, m, rows, inJoin, a);
    }
  }

  /** Of a default integer in groups the signed build function is stored, and else that of its sign; they
      differ in nothing that they write. */
  lemma BuilderSign(name: Arg, m: Member, rows: nat, inJoin: bool)
    requires m.kind.IntDefault? || m.kind.IntUnique? || m.kind.IntFixed?
    ensures var b := Stored(name, m, rows, inJoin).build;
            && (b.UniqueInt? || b.FixedInt?)
            && b.sign == if m.kind.IntDefault? && m.grp.Some? && !inJoin then Signed else m.kind.sign
  {
  }

  // ---------- the loops that write ----------

  /** put_digits and put_group_cl, again and again. */
  method PutAgain(cells: seq<Arg>, text: Arg, times: nat) returns (more: seq<Arg>)
    ensures more == cells + Constant(text, times)
  {
    more := cells;
    var rest: nat := times;
    while rest > 0
      invariant rest <= times && more == cells + Constant(text, times - rest)
    {
      more := more + [text];
      rest := rest - 1;
    }
  }

  /** The partition that the GRP_SPEC names. */
  method Partition(grp: Grp, rows: nat) returns (sizes: seq<nat>)
    requires 1 <= grp.count <= rows
    ensures sizes == GroupSizes(grp.part, grp.count, rows)
  {
    var group := new nat[grp.count];
    if grp.part.Even? {
      PartitionEven(group, rows);
    } else {
      PartitionLinear(group, rows);
    }
    sizes := group[..];
  }

  /** Every cell is the number of its group. */
  predicate Counted(base: Arg, sizes: seq<nat>, cells: seq<Arg>) {
    |cells| <= Sum(sizes) && forall row :: 0 <= row < |cells| ==> cells[row] == base + Decimal(GroupOf(sizes, row) + 1)
  }

  lemma CopiesAreCounted(base: Arg, sizes: seq<nat>, cells: seq<Arg>, g: nat, times: nat)
    requires Counted(base, sizes, cells) && g < |sizes|
    requires RowsBefore(sizes, g) <= |cells| && |cells| + times <= RowsBefore(sizes, g + 1)
    ensures Counted(base, sizes, cells + Constant(base + Decimal(g + 1), times))
  {
    RowsRise(sizes, g + 1, |sizes|);
    var more := cells + Constant(base + Decimal(g + 1), times);
    forall row | |cells| <= row < |more| ensures more[row] == base + Decimal(GroupOf(sizes, row) + 1) {
      GroupOfIff(sizes, g, row);
    }
  }

  /** There is another group, or row block, while rows remain. */
  lemma MoreToCome(sizes: seq<nat>, g: nat, row: nat)
    requires g < |sizes| && RowsBefore(sizes, g + 1) <= row < Sum(sizes)
    ensures g + 1 < |sizes|
  {
  }

  /** `rest` rows of an interval are still to come. */
  predicate Inside(sizes: seq<nat>, k: nat, row: nat, rest: nat) {
    k < |sizes| && row + rest == RowsBefore(sizes, k + 1)
  }

  lemma FirstInterval(sizes: seq<nat>)
    requires Sum(sizes) >= 1 && NoneEmpty(sizes)
    ensures sizes != [] && Inside(sizes, 0, 1, sizes[0] - 1) && RowsBefore(sizes, 0) == 0
  {
    assert RowsBefore(sizes, 1) == RowsBefore(sizes, 0) + sizes[0];
  }

  /** Another group starts in this row block. */
  method PutGroup(base: Arg, group: seq<nat>, g: nat, blocks: seq<nat>, b: nat, cells: seq<Arg>, inBlock: nat, inGroup: nat)
    returns (more: seq<Arg>, blockRest: nat, groupRest: nat)
    requires Inside(blocks, b, |cells|, inBlock) && Inside(group, g, |cells|, inGroup) && inBlock > inGroup
    requires Counted(base, group, cells) && RowsBefore(group, g) <= |cells| && Sum(blocks) == Sum(group) && NoneEmpty(group)
    ensures Inside(blocks, b, |more|, blockRest) && Inside(group, g + 1, |more|, groupRest)
    ensures Counted(base, group, more) && RowsBefore(group, g + 1) <= |more|
  {
    var put := PutAgain(cells, base + Decimal(g + 1), inGroup);
    CopiesAreCounted(base, group, cells, g, inGroup);
    RowsRise(blocks, b + 1, |blocks|);
    MoreToCome(group, g, |put|);
    blockRest, groupRest := inBlock - (inGroup + 1), group[g + 1] - 1;
    CopiesAreCounted(base, group, put, g + 1, 1);
    more := put + Constant(base + Decimal(g + 2), 1);
  }

  /** The row block is full. */
  method FillBlock(base: Arg, group: seq<nat>, g: nat, blocks: seq<nat>, b: nat, cells: seq<Arg>, inBlock: nat, inGroup: nat)
    returns (more: seq<Arg>, groupRest: nat)
    requires Inside(blocks, b, |cells|, inBlock) && Inside(group, g, |cells|, inGroup) && inBlock <= inGroup
    requires Counted(base, group, cells) && RowsBefore(group, g) <= |cells|
    ensures |more| == RowsBefore(blocks, b + 1) && Inside(group, g, |more|, groupRest)
    ensures Counted(base, group, more) && RowsBefore(group, g) <= |more|
  {
    more := PutAgain(cells, base + Decimal(g + 1), inBlock);
    CopiesAreCounted(base, group, cells, g, inBlock);
    groupRest := inGroup - inBlock;
  }

  predicate AreStarts(starts: seq<nat>, blocks: seq<nat>) {
    |starts| <= |blocks| && forall b :: 0 <= b < |starts| ==> starts[b] == RowsBefore(blocks, b)
  }

  /** build_column_integer_unique_group, build_column_u_integer_unique_group and
      build_column_string_unique_group: one loop over groups and row blocks. */
  method BuildUniqueGroup(base: Arg, grp: Grp, rows: nat, blocks: seq<nat>) returns (cells: seq<Arg>, starts: seq<nat>)
    requires 1 <= grp.count <= rows && IsPartition(blocks, |blocks|, rows)
    ensures |cells| == rows && Counted(base, GroupSizes(grp.part, grp.count, rows), cells)
    ensures |starts| == |blocks| && AreStarts(starts, blocks)
  {
    var group := Partition(grp, rows);
    SizesPartition(grp.part, grp.count, rows);
    FirstInterval(blocks);
    FirstInterval(group);
    var b: nat, g: nat := 0, 0;
    CopiesAreCounted(base, group, [], 0, 1);
    cells, starts := [] + Constant(base + Decimal(1), 1), [0];
    var inBlock: nat, inGroup: nat := blocks[0] - 1, group[0] - 1;
    while true
      invariant Inside(blocks, b, |cells|, inBlock) && Inside(group, g, |cells|, inGroup)
      invariant Counted(base, group, cells) && RowsBefore(group, g) <= |cells|
      invariant |starts| == b + 1 && AreStarts(starts, blocks)
      decreases |blocks| - b + |group| - g
    {
      if inBlock > inGroup {
        cells, inBlock, inGroup := PutGroup(base, group, g, blocks, b, cells, inBlock, inGroup);
        g := g + 1;
      } else {
        cells, inGroup := FillBlock(base, group, g, blocks, b, cells, inBlock, inGroup);
        b := b + 1;
        if b == |blocks| {
          break;
        }
        starts, inBlock := starts + [|cells|], blocks[b];
      }
    }
  }

  /** build_column_timestamp_unique and build_column_datetime_unique, which tick after every row but the last
      of a row block. */
  method BuildUniqueTimes(ticks: nat -> Arg, rows: nat, blocks: seq<nat>) returns (cells: seq<Arg>)
    requires IsPartition(blocks, |blocks|, rows)
    ensures |cells| == rows
    ensures forall row :: 0 <= row < rows ==> GroupOf(blocks, row) <= row && cells[row] == ticks(row - GroupOf(blocks, row))
  {
    cells := [];
    var b: nat, tick: nat := 0, 0;
    while b < |blocks|
      invariant b <= |blocks| && |cells| == RowsBefore(blocks, b) && tick + b == |cells|
      invariant AreTicks(ticks, blocks, cells)
    {
      var until := |cells| + blocks[b];
      while true
        invariant RowsBefore(blocks, b) <= |cells| < until && tick + b == |cells|
        invariant AreTicks(ticks, blocks, cells)
        decreases until - |cells|
      {
        TickInBlock(ticks, blocks, cells, b, tick);
        cells := cells + [ticks(tick)];
        if |cells| == until {
          break;
        }
        tick := tick + 1;
      }
      b := b + 1;
    }
  }

  predicate AreTicks(ticks: nat -> Arg, blocks: seq<nat>, cells: seq<Arg>) {
    forall row :: 0 <= row < |cells| ==> GroupOf(blocks, row) <= row && cells[row] == ticks(row - GroupOf(blocks, row))
  }

  lemma TickInBlock(ticks: nat -> Arg, blocks: seq<nat>, cells: seq<Arg>, b: nat, tick: nat)
    requires AreTicks(ticks, blocks, cells) && tick + b == |cells|
    requires b < |blocks| && RowsBefore(blocks, b) <= |cells| < RowsBefore(blocks, b + 1)
    ensures AreTicks(ticks, blocks, cells + [ticks(tick)])
  {
    RowsRise(blocks, b + 1, |blocks|);
    GroupOfIff(blocks, b, |cells|);
  }
}
