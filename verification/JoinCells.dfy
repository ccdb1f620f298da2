/** The cells of a JOIN: whether they fit the declared length, and when they are all equally long. */
module JoinCells {
  import opened Octets
  import opened Numbers
  import opened Specs
  import opened Random
  import opened Columns
  import opened Rendering

  /** A text that a member contributes. */
  ghost predicate MemberPrints(name: Arg, m: Member, rows: nat, s: Arg) {
    Prints(MemberSpec(name, m), rows, s)
  }

  /** A cell: one text of every member, in order. */
  ghost predicate JoinPrints(name: Arg, ms: seq<Member>, rows: nat, s: Arg)
    decreases |ms|
  {
    if ms == [] then s == []
    else exists a: Arg, b: Arg ::
      JoinPrints(name, ms[..|ms| - 1], rows, a) && MemberPrints(name, ms[|ms| - 1], rows, b) && s == a + b
  }

  type Texts = Arg -> bool

  ghost function TextsOf(name: Arg, m: Member, rows: nat): Texts {
    (s: Arg) => MemberPrints(name, m, rows, s)
  }

  ghost function CellsOf(name: Arg, ms: seq<Member>, rows: nat): Texts {
    (s: Arg) => JoinPrints(name, ms, rows, s)
  }

  /** The length of the longest text; None if there is no text at all. */
  ghost predicate IsLongest(texts: Texts, longest: Option<nat>) {
    match longest
    case None => forall s: Arg :: !texts(s)
    case Some(n) => (forall s: Arg :: texts(s) ==> |s| <= n) && exists s: Arg :: texts(s) && |s| == n
  }

  ghost predicate OfLength(texts: Texts, length: nat) {
    forall s: Arg :: texts(s) ==> |s| == length
  }

  ghost predicate EquallyLong(texts: Texts) {
    exists length: nat :: OfLength(texts, length)
  }

  ghost predicate AllFit(texts: Texts, length: nat) {
    forall s: Arg :: texts(s) ==> |s| <= length
  }

  // ---------- one member ----------

  /** How far the build function of a counter or counted string counts; that of a grouped default
      string counts to the row count. */
  function CountIn(m: Member, rows: nat): nat {
    if m.kind.StrDefault? then rows else GroupCount(m.grp, rows)
  }

  /** The longest text of a member. */
  function Longest(name: Arg, m: Member, rows: nat): Option<nat> {
    match m.kind
    case IntDefault(_) => Some(UintDigitCount(CountIn(m, rows)))
    case IntUnique(_) => Some(UintDigitCount(CountIn(m, rows)))
    case IntFixed(_, v) => Some(|Text(v)|)
    case StrDefault => Some(|name| + UintDigitCount(CountIn(m, rows)))
    case StrUnique(base) => Some(|base| + UintDigitCount(CountIn(m, rows)))
    case StrFixed(text) => Some(|text|)
    case StrUuid => Some(UUID_STRING_LENGTH)
    case StrHash(length) => Some(length)
    case StrNamesFirst => Some(FIRST_NAME_LENGTH_MAX)
    case StrNamesLast => Some(LAST_NAME_LENGTH_MAX)
    case StrNamesFull => Some(FULL_NAME_LENGTH_MAX)
    case TimeDefault(_) => Some(LENGTH_TIME_STRING)
    case TimeUnique(_) => Some(LENGTH_TIME_STRING)
    case TimeFixed(_) => Some(LENGTH_TIME_STRING)
    case _ => Widest(PlanOf(m.kind, false).gen)
  }

  /** All texts of a member are equally long: those of a counter that stays below 10, of a random
      integer between numbers of equally many characters and of the same sign, and of whatever
      prints a fixed number of characters. */
  predicate HasOneLength(m: Member, rows: nat) {
    match m.kind
    case IntDefault(_) => CountIn(m, rows) <= 9
    case IntUnique(_) => CountIn(m, rows) <= 9
    case StrDefault => CountIn(m, rows) <= 9
    case StrUnique(_) => CountIn(m, rows) <= 9
    case StrNamesFirst => false
    case StrNamesLast => false
    case StrNamesFull => false
    case _ => if IsRandom(m.kind) then IsEven(PlanOf(m.kind, false).gen) else true
  }

  /** A text of any length. */
  function Filler(n: nat): (s: Arg)
    ensures |s| == n
  {
    seq(n, _ => 'a')
  }

  ghost function Counting(base: Arg, count: nat): Texts {
    (s: Arg) => exists n: nat :: 1 <= n <= count && s == base + Decimal(n)
  }

  lemma OneDigit(n: nat)
    ensures |Decimal(n)| >= 1 && (n <= 9 <==> |Decimal(n)| == 1)
  {
  }

  lemma LongestCounted(base: Arg, count: nat)
    requires 1 <= count <= UPTO_MAX
    ensures IsLongest(Counting(base, count), Some(|base| + UintDigitCount(count)))
  {
    var texts := Counting(base, count);
    UintDigitCountIsLength(count);
    forall s: Arg | texts(s) ensures |s| <= |base| + UintDigitCount(count) {
      var n: nat :| 1 <= n <= count && s == base + Decimal(n);
      DecimalMonotone(n, count);
    }
    assert texts(base + Decimal(count));
  }

  lemma CountedEquallyLong(base: Arg, count: nat)
    requires 1 <= count <= UPTO_MAX
    ensures EquallyLong(Counting(base, count)) <==> count <= 9
  {
    var texts := Counting(base, count);
    if count <= 9 {
      forall s: Arg | texts(s) ensures |s| == |base| + 1 {
        var n: nat :| 1 <= n <= count && s == base + Decimal(n);
        OneDigit(n);
      }
      assert OfLength(texts, |base| + 1);
    } else {
      assert texts(base + Decimal(count)) && texts(base + Decimal(1));
      OneDigit(1);
      OneDigit(count);
    }
  }

  ghost predicate SameTexts(texts: Texts, others: Texts) {
    forall s: Arg :: texts(s) <==> others(s)
  }

  lemma SameLongest(texts: Texts, others: Texts, longest: Option<nat>)
    requires SameTexts(texts, others) && IsLongest(others, longest)
    ensures IsLongest(texts, longest)
  {
    if longest.Some? {
      var s: Arg :| others(s) && |s| == longest.value;
      assert texts(s);
    }
  }

  lemma SameLengths(texts: Texts, others: Texts)
    requires SameTexts(texts, others)
    ensures EquallyLong(texts) <==> EquallyLong(others)
  {
    if EquallyLong(texts) {
      var n: nat :| OfLength(texts, n);
      assert OfLength(others, n);
    }
    if EquallyLong(others) {
      var n: nat :| OfLength(others, n);
      assert OfLength(texts, n);
    }
  }

  /** What the closed forms say of a member is so. */
  ghost predicate Described(name: Arg, m: Member, rows: nat) {
    && IsLongest(TextsOf(name, m, rows), Longest(name, m, rows))
    && (EquallyLong(TextsOf(name, m, rows)) <==> HasOneLength(m, rows))
  }

  /** Text of a fixed length, whatever it is. */
  lemma FixedTexts(texts: Texts, s: Arg)
    requires texts(s) && forall t: Arg :: texts(t) ==> |t| == |s|
    ensures IsLongest(texts, Some(|s|)) && EquallyLong(texts)
  {
    assert OfLength(texts, |s|);
  }

  lemma NamesTexts(texts: Texts, max: nat)
    requires max > 1 && forall s: Arg :: texts(s) <==> 1 <= |s| <= max
    ensures IsLongest(texts, Some(max)) && !EquallyLong(texts)
  {
    assert texts(Filler(max)) && texts(Filler(1));
  }

  predicate IsCounter(k: Kind) {
    k.IntDefault? || k.IntUnique? || k.StrDefault? || k.StrUnique?
  }

  lemma CountedNumbers(name: Arg, m: Member, rows: nat)
    requires m.kind.IntDefault? || m.kind.IntUnique?
    ensures SameTexts(TextsOf(name, m, rows), Counting([], CountIn(m, rows)))
  {
    forall n: nat ensures [] + Decimal(n) == Decimal(n) {
    }
  }

  lemma CountedStrings(name: Arg, m: Member, rows: nat)
    requires m.kind.StrDefault? || m.kind.StrUnique?
    ensures SameTexts(TextsOf(name, m, rows), Counting(BaseOf(m.kind, name), CountIn(m, rows)))
  {
  }

  lemma LikeTexts(name: Arg, m: Member, rows: nat, texts: Texts)
    requires SameTexts(TextsOf(name, m, rows), texts) && IsLongest(texts, Longest(name, m, rows))
    requires EquallyLong(texts) <==> HasOneLength(m, rows)
    ensures Described(name, m, rows)
  {
    SameLongest(TextsOf(name, m, rows), texts, Longest(name, m, rows));
    SameLengths(TextsOf(name, m, rows), texts);
  }

  lemma LikeCounting(name: Arg, m: Member, rows: nat, base: Arg, count: nat)
    requires SameTexts(TextsOf(name, m, rows), Counting(base, count)) && 1 <= count <= UPTO_MAX
    requires Longest(name, m, rows) == Some(|base| + UintDigitCount(count)) && (HasOneLength(m, rows) <==> count <= 9)
    ensures Described(name, m, rows)
  {
    LongestCounted(base, count);
    CountedEquallyLong(base, count);
    LikeTexts(name, m, rows, Counting(base, count));
  }

  lemma CounterTexts(name: Arg, m: Member, rows: nat)
    requires IsCounter(m.kind) && MemberOk(m, rows) && 1 <= rows <= UPTO_MAX
    ensures Described(name, m, rows)
  {
    if m.kind.IntDefault? || m.kind.IntUnique? {
      CountedNumbers(name, m, rows);
      LikeCounting(name, m, rows, [], CountIn(m, rows));
    } else {
      CountedStrings(name, m, rows);
      LikeCounting(name, m, rows, BaseOf(m.kind, name), CountIn(m, rows));
    }
  }

  ghost function Printed(g: Gen): Texts {
    (s: Arg) => PrintsText(g, s)
  }

  lemma PrintedTexts(g: Gen)
    requires AreEnds(g, Ends(g))
    ensures IsLongest(Printed(g), Widest(g)) && (EquallyLong(Printed(g)) <==> PrintsEvenly(g))
  {
    WidestIsPrinted(g);
    if EquallyLong(Printed(g)) {
      var n: nat :| OfLength(Printed(g), n);
      assert PrintsOnly(g, n);
    }
    if PrintsEvenly(g) {
      var n: nat :| PrintsOnly(g, n);
      assert OfLength(Printed(g), n);
    }
  }

  lemma RandomPrinted(name: Arg, m: Member, rows: nat)
    requires IsRandom(m.kind)
    ensures SameTexts(TextsOf(name, m, rows), Printed(PlanOf(m.kind, false).gen))
  {
  }

  lemma RandomTexts(name: Arg, m: Member, rows: nat)
    requires IsRandom(m.kind) && MemberOk(m, rows)
    ensures Described(name, m, rows)
  {
    var g := PlanOf(m.kind, false).gen;
    EndsAreMade(m.kind, false);
    PrintedTexts(g);
    EvenIff(m.kind, false);
    RandomPrinted(name, m, rows);
    LikeTexts(name, m, rows, Printed(g));
  }

  predicate IsNames(k: Kind) {
    k.StrNamesFirst? || k.StrNamesLast? || k.StrNamesFull?
  }

  lemma NameMemberTexts(name: Arg, m: Member, rows: nat)
    requires IsNames(m.kind)
    ensures Described(name, m, rows)
  {
    NamesTexts(TextsOf(name, m, rows), Longest(name, m, rows).value);
  }

  /** The text, or one of those, of a member that prints a fixed number of characters. */
  function Sample(m: Member): Arg {
    match m.kind
    case IntFixed(_, v) => Text(v)
    case StrFixed(text) => text
    case StrUuid => Filler(UUID_STRING_LENGTH)
    case StrHash(length) => Filler(length)
    case _ => Filler(LENGTH_TIME_STRING)
  }

  lemma FixedMemberTexts(name: Arg, m: Member, rows: nat)
    requires !IsCounter(m.kind) && !IsRandom(m.kind) && !IsNames(m.kind)
    ensures Described(name, m, rows)
  {
    var texts := TextsOf(name, m, rows);
    forall t: Arg | texts(t) ensures |t| == |Sample(m)| {
    }
    FixedTexts(texts, Sample(m));
  }

  lemma MemberTexts(name: Arg, m: Member, rows: nat)
    requires MemberOk(m, rows) && 1 <= rows <= UPTO_MAX
    ensures Described(name, m, rows)
  {
    if IsCounter(m.kind) {
      CounterTexts(name, m, rows);
    } else if IsRandom(m.kind) {
      RandomTexts(name, m, rows);
    } else if IsNames(m.kind) {
      NameMemberTexts(name, m, rows);
    } else {
      FixedMemberTexts(name, m, rows);
    }
  }

  // ---------- any number of members ----------

  function Plus(m: Option<nat>, n: Option<nat>): Option<nat> {
    if m.Some? && n.Some? then Some(m.value + n.value) else None
  }

  /** The longest cell. */
  function LongestCell(name: Arg, ms: seq<Member>, rows: nat): Option<nat> {
    if ms == [] then Some(0) else Plus(LongestCell(name, ms[..|ms| - 1], rows), Longest(name, ms[|ms| - 1], rows))
  }

  ghost predicate AllOk(ms: seq<Member>, rows: nat) {
    1 <= rows <= UPTO_MAX && forall m <- ms :: MemberOk(m, rows)
  }

  /** Concatenations of two texts. */
  ghost function Pairs(texts: Texts, others: Texts): Texts {
    (s: Arg) => exists a: Arg, b: Arg :: texts(a) && others(b) && s == a + b
  }

  lemma PairsLongest(texts: Texts, m: Option<nat>, others: Texts, n: Option<nat>)
    requires IsLongest(texts, m) && IsLongest(others, n)
    ensures IsLongest(Pairs(texts, others), Plus(m, n))
  {
    if m.Some? && n.Some? {
      var a: Arg :| texts(a) && |a| == m.value;
      var b: Arg :| others(b) && |b| == n.value;
      assert Pairs(texts, others)(a + b);
    }
  }

  lemma PairsEven(texts: Texts, others: Texts, a: Arg, b: Arg)
    requires texts(a) && others(b)
    ensures EquallyLong(Pairs(texts, others)) <==> EquallyLong(texts) && EquallyLong(others)
  {
    var pairs := Pairs(texts, others);
    if EquallyLong(pairs) {
      var n: nat :| OfLength(pairs, n);
      assert pairs(a + b);
      forall s: Arg | texts(s) ensures |s| == |a| {
        assert pairs(s + b);
      }
      forall s: Arg | others(s) ensures |s| == |b| {
        assert pairs(a + s);
      }
      assert OfLength(texts, |a|) && OfLength(others, |b|);
    }
    if EquallyLong(texts) && EquallyLong(others) {
      var m: nat, n: nat :| OfLength(texts, m) && OfLength(others, n);
      assert OfLength(pairs, m + n);
    }
  }

  lemma CellsArePairs(name: Arg, ms: seq<Member>, rows: nat)
    requires ms != []
    ensures SameTexts(CellsOf(name, ms, rows), Pairs(CellsOf(name, ms[..|ms| - 1], rows), TextsOf(name, ms[|ms| - 1], rows)))
  {
    var cells, texts := CellsOf(name, ms[..|ms| - 1], rows), TextsOf(name, ms[|ms| - 1], rows);
    forall s: Arg ensures CellsOf(name, ms, rows)(s) <==> Pairs(cells, texts)(s) {
      if JoinPrints(name, ms, rows, s) {
        var a: Arg, b: Arg :|
          JoinPrints(name, ms[..|ms| - 1], rows, a) && MemberPrints(name, ms[|ms| - 1], rows, b) && s == a + b;
        assert cells(a) && texts(b);
      }
      if Pairs(cells, texts)(s) {
        var a: Arg, b: Arg :| cells(a) && texts(b) && s == a + b;
        assert JoinPrints(name, ms[..|ms| - 1], rows, a) && MemberPrints(name, ms[|ms| - 1], rows, b);
      }
    }
  }

  /** Over any number of members, the longest cell is as long as the longest texts together. */
  lemma {:induction false} LongestCellIsPrinted(name: Arg, ms: seq<Member>, rows: nat)
    requires AllOk(ms, rows)
    ensures IsLongest(CellsOf(name, ms, rows), LongestCell(name, ms, rows))
    decreases |ms|
  {
    if ms == [] {
      FixedTexts(CellsOf(name, ms, rows), []);
    } else {
      var init, last := ms[..|ms| - 1], ms[|ms| - 1];
      LongestCellIsPrinted(name, init, rows);
      MemberTexts(name, last, rows);
      PairsLongest(CellsOf(name, init, rows), LongestCell(name, init, rows), TextsOf(name, last, rows), Longest(name, last, rows));
      CellsArePairs(name, ms, rows);
      SameLongest(CellsOf(name, ms, rows), Pairs(CellsOf(name, init, rows), TextsOf(name, last, rows)), LongestCell(name, ms, rows));
    }
  }

  /** The declared length is enough for every cell if and only if the longest texts of the members
      come to no more, or some member prints nothing at all. */
  lemma JoinFitsIff(name: Arg, ms: seq<Member>, rows: nat)
    requires AllOk(ms, rows)
    ensures AllFit(CellsOf(name, ms, rows), Total(ms, rows, name).length) <==>
            var longest := LongestCell(name, ms, rows); longest.None? || longest.value <= Total(ms, rows, name).length
  {
    LongestCellIsPrinted(name, ms, rows);
  }

  // ---------- what is reserved ----------

  /** A grouped `-s` in a JOIN counts to the row count, though it reserves room for the group
      count. */
  predicate Sized(m: Member, rows: nat) {
    m.kind.StrDefault? && m.grp.Some? ==> UintDigitCount(rows) <= UintDigitCount(m.grp.value.count)
  }

  lemma RandomIsReserved(k: Kind)
    requires IsRandom(k) && KindOk(k)
    ensures var longest := Widest(PlanOf(k, false).gen); longest.Some? ==> longest.value <= PlanOf(k, false).length
  {
    var g := PlanOf(k, false).gen;
    EndsAreMade(k, false);
    if Ends(g).Some? {
      ProducedFits(k, false, Ends(g).value.0);
      ProducedFits(k, false, Ends(g).value.1);
    }
  }

  /** The length that is reserved for a member is enough for its longest text if and only if the
      member is not a grouped default string of a table whose row count has more digits than the
      group count. */
  lemma MemberFitsIff(name: Arg, m: Member, rows: nat)
    requires MemberOk(m, rows) && 1 <= rows <= UPTO_MAX
    ensures AllFit(TextsOf(name, m, rows), JoinLength(m.kind, m.grp, rows, name)) <==> Sized(m, rows)
  {
    MemberTexts(name, m, rows);
    if IsRandom(m.kind) {
      RandomIsReserved(m.kind);
    }
  }

  lemma {:induction false} SizedIsEnough(name: Arg, ms: seq<Member>, rows: nat)
    requires AllOk(ms, rows) && forall m <- ms :: Sized(m, rows)
    ensures var longest := LongestCell(name, ms, rows); longest.Some? ==> longest.value <= Total(ms, rows, name).length
    decreases |ms|
  {
    if ms != [] {
      var m := ms[|ms| - 1];
      SizedIsEnough(name, ms[..|ms| - 1], rows);
      MemberFitsIff(name, m, rows);
      MemberTexts(name, m, rows);
    }
  }

  /** Without such members every cell fits, over any number of members. */
  lemma JoinFits(name: Arg, ms: seq<Member>, rows: nat)
    requires AllOk(ms, rows) && forall m <- ms :: Sized(m, rows)
    ensures AllFit(CellsOf(name, ms, rows), Total(ms, rows, name).length)
  {
    SizedIsEnough(name, ms, rows);
    JoinFitsIff(name, ms, rows);
  }

  lemma TotalOfOne(name: Arg, m: Member, rows: nat)
    ensures Total([m], rows, name) == Join(JoinLength(m.kind, m.grp, rows, name), Varies(m.kind))
    ensures LongestCell(name, [m], rows) == Longest(name, m, rows)
  {
    assert [m][..0] == [];
    assert TotalBy(Standard(), name, rows, []) == Join(0, false);
  }

  lemma TotalOfTwo(name: Arg, m: Member, n: Member, rows: nat)
    ensures Total([m, n], rows, name).length == JoinLength(m.kind, m.grp, rows, name) + JoinLength(n.kind, n.grp, rows, name)
    ensures LongestCell(name, [m, n], rows) == Plus(Longest(name, m, rows), Longest(name, n, rows))
  {
    TotalOfOne(name, m, rows);
    assert [m, n][..1] == [m];
  }

  /** `-s -j -s -g 1` in a table of 10 rows prints a cell that is longer than the column. */
  lemma OverlongCellWitness(name: Arg)
    ensures var ms := [Member(StrDefault, Some(Grp(1, Even)))]; !AllFit(CellsOf(name, ms, 10), Total(ms, 10, name).length)
  {
    var m := Member(StrDefault, Some(Grp(1, Even)));
    TotalOfOne(name, m, 10);
    JoinFitsIff(name, [m], 10);
  }

  /** `-s -j -s -g 1 + -i -f 5` in the same table fits all the same: the fixed integer reserves a
      character too many. */
  lemma CompensatedWitness(name: Arg)
    ensures var ms := [Member(StrDefault, Some(Grp(1, Even))), Member(IntFixed(Signed, 5), None)];
            !Sized(ms[0], 10) && AllFit(CellsOf(name, ms, 10), Total(ms, 10, name).length)
  {
    var m, n := Member(StrDefault, Some(Grp(1, Even))), Member(IntFixed(Signed, 5), None);
    TotalOfTwo(name, m, n, 10);
    JoinFitsIff(name, [m, n], 10);
  }

  // ---------- exactly what is reserved ----------

  /** What a member reserves beyond its longest text, or below it: the terminator of a fixed integer,
      the digits that the group count of a default string is short of, and what a random integer does
      not need of the type it ranges over. */
  function Slack(m: Member, rows: nat): int {
    match m.kind
    case IntFixed(_, _) => 1
    case StrDefault => UintDigitCount(GroupCount(m.grp, rows)) - UintDigitCount(rows)
    case _ =>
      if IsRandom(m.kind) && Widest(PlanOf(m.kind, false).gen).Some?
      then Reserve(m.kind) - Widest(PlanOf(m.kind, false).gen).value
      else 0
  }

  function Slacks(ms: seq<Member>, rows: nat): int {
    if ms == [] then 0 else Slacks(ms[..|ms| - 1], rows) + Slack(ms[|ms| - 1], rows)
  }

  lemma MemberReserves(name: Arg, m: Member, rows: nat)
    requires MemberOk(m, rows) && Longest(name, m, rows).Some?
    ensures JoinLength(m.kind, m.grp, rows, name) == Longest(name, m, rows).value + Slack(m, rows)
  {
    if IsRandom(m.kind) {
      PlanReserves(m.kind, false);
    }
  }

  /** The declared length of a JOIN is the length of its longest cell and the slack of its members. */
  lemma {:induction false} TotalIs(name: Arg, ms: seq<Member>, rows: nat)
    requires AllOk(ms, rows) && LongestCell(name, ms, rows).Some?
    ensures Total(ms, rows, name).length == LongestCell(name, ms, rows).value + Slacks(ms, rows)
    decreases |ms|
  {
    if ms != [] {
      TotalIs(name, ms[..|ms| - 1], rows);
      MemberReserves(name, ms[|ms| - 1], rows);
    }
  }

  /** Neither a random nor a fixed integer, nor a default string in groups. */
  predicate IsTight(m: Member) {
    !IsRandom(m.kind) && !m.kind.IntFixed? && !(m.kind.StrDefault? && m.grp.Some?)
  }

  lemma TightHasNoSlack(name: Arg, m: Member, rows: nat)
    requires IsTight(m)
    ensures Slack(m, rows) == 0 && Longest(name, m, rows).Some?
  {
  }

  lemma {:induction false} TightHaveNoSlack(name: Arg, ms: seq<Member>, rows: nat)
    requires forall m <- ms :: IsTight(m)
    ensures Slacks(ms, rows) == 0 && LongestCell(name, ms, rows).Some?
    decreases |ms|
  {
    if ms != [] {
      var init, last := ms[..|ms| - 1], ms[|ms| - 1];
      assert ms == init + [last] && last in ms;
      TightHaveNoSlack(name, init, rows);
      TightHasNoSlack(name, last, rows);
    }
  }

  /** Of such members a JOIN is declared exactly as long as its longest cell. */
  lemma TightTotalIs(name: Arg, ms: seq<Member>, rows: nat)
    requires AllOk(ms, rows) && forall m <- ms :: IsTight(m)
    ensures IsLongest(CellsOf(name, ms, rows), Some(Total(ms, rows, name).length))
  {
    TightHaveNoSlack(name, ms, rows);
    TotalIs(name, ms, rows);
    LongestCellIsPrinted(name, ms, rows);
  }

  // ---------- legal lengths ----------

  /** The most that one member can reserve: fixed text of 254 code points of four octets. */
  const RESERVED_MAX: nat := 1016

  lemma ReservedAtMost(name: Arg, m: Member, rows: nat)
    requires IsName(name) && MemberOk(m, rows) && rows <= UPTO_MAX
    ensures JoinLength(m.kind, m.grp, rows, name) <= RESERVED_MAX
  {
    OctetsPerCodePoint(name, 0);
    match m.kind
    case IntFixed(_, v) => TextLength(v);
    case StrUnique(base) => OctetsPerCodePoint(base, 0);
    case StrFixed(text) => OctetsPerCodePoint(text, 0);
    case _ => if IsRandom(m.kind) { PlanShape(m.kind, false); }
  }

  lemma {:induction false} TotalAtMost(name: Arg, ms: seq<Member>, rows: nat)
    requires IsName(name) && AllOk(ms, rows)
    ensures Total(ms, rows, name).length <= RESERVED_MAX * |ms|
    decreases |ms|
  {
    if ms != [] {
      TotalAtMost(name, ms[..|ms| - 1], rows);
      ReservedAtMost(name, ms[|ms| - 1], rows);
    }
  }

  function Copies(m: Member, n: nat): (ms: seq<Member>)
    ensures |ms| == n && forall x <- ms :: x == m
  {
    if n == 0 then [] else Copies(m, n - 1) + [m]
  }

  lemma OneMore(n: nat, one: nat)
    requires n > 0
    ensures (n - 1) * one + one == n * one
  {
  }

  lemma {:induction false} TotalOfCopies(name: Arg, m: Member, n: nat, rows: nat)
    ensures Total(Copies(m, n), rows, name).length == n * JoinLength(m.kind, m.grp, rows, name)
  {
    if n > 0 {
      var ms, one := Copies(m, n), JoinLength(m.kind, m.grp, rows, name);
      assert ms[..|ms| - 1] == Copies(m, n - 1) && ms[|ms| - 1] == m;
      TotalOfCopies(name, m, n - 1, rows);
      OneMore(n, one);
    }
  }

  /** All JOINs of so many accepted members have a type that MySQL has. */
  ghost predicate AllLegal(n: nat) {
    forall name: Arg, ms: seq<Member>, rows: nat {:trigger Total(ms, rows, name)} ::
      IsName(name) && AllOk(ms, rows) && |ms| == n ==> IsLegal(Closed(Total(ms, rows, name)))
  }

  /** Fixed text of 254 code points of four octets, n times. */
  lemma LongestJoin(n: nat, name: Arg, p: Arg)
    requires IsCodePoint(p) && |p| == 4 && IsName(name)
    ensures var ms := Copies(Member(StrFixed(Repeated(p, 254)), None), n);
            AllOk(ms, 1) && |ms| == n && Total(ms, 1, name).length == n * RESERVED_MAX
  {
    var m := Member(StrFixed(Repeated(p, 254)), None);
    IllegalCharWitness(name, p);
    TotalOfCopies(name, m, n, 1);
  }

  /** Up to 64 members a JOIN of any table has a legal type, whatever they are; from 65 on some JOIN has
      not. */
  lemma JoinsAreLegalIff(n: nat)
    ensures AllLegal(n) <==> n <= 64
  {
    if n <= 64 {
      forall name: Arg, ms: seq<Member>, rows: nat {:trigger Total(ms, rows, name)}
        | IsName(name) && AllOk(ms, rows) && |ms| == n
        ensures IsLegal(Closed(Total(ms, rows, name)))
      {
        TotalAtMost(name, ms, rows);
      }
    } else {
      var p: Arg := [0xF0 as char, 0x90 as char, 0x80 as char, 0x80 as char];
      var name: Arg := "N";
      assert CountFrom(name, 1) == Some(0) && IsName(name);
      LongestJoin(n, name, p);
      var ms := Copies(Member(StrFixed(Repeated(p, 254)), None), n);
      assert !IsLegal(Closed(Total(ms, 1, name)));
    }
  }

  // ---------- CHAR or VARCHAR ----------

  predicate AllOneLength(ms: seq<Member>, rows: nat) {
    forall m <- ms :: HasOneLength(m, rows)
  }

  lemma AllOneLengthSnoc(ms: seq<Member>, rows: nat)
    requires ms != []
    ensures AllOneLength(ms, rows) <==> AllOneLength(ms[..|ms| - 1], rows) && HasOneLength(ms[|ms| - 1], rows)
  {
    assert ms == ms[..|ms| - 1] + [ms[|ms| - 1]];
  }

  /** One member more. */
  lemma CellsEquallyLong(name: Arg, ms: seq<Member>, rows: nat)
    requires ms != [] && AllOk(ms, rows) && LongestCell(name, ms, rows).Some?
    ensures EquallyLong(CellsOf(name, ms, rows)) <==>
            EquallyLong(CellsOf(name, ms[..|ms| - 1], rows)) && HasOneLength(ms[|ms| - 1], rows)
  {
    var init, last := ms[..|ms| - 1], ms[|ms| - 1];
    var cells, texts := CellsOf(name, init, rows), TextsOf(name, last, rows);
    LongestCellIsPrinted(name, init, rows);
    MemberTexts(name, last, rows);
    CellsArePairs(name, ms, rows);
    SameLengths(CellsOf(name, ms, rows), Pairs(cells, texts));
    var a: Arg :| cells(a);
    var b: Arg :| texts(b);
    PairsEven(cells, texts, a, b);
  }

  /** The cells of a JOIN that prints any are equally long if and only if the texts of every member
      are. */
  lemma {:induction false} EvenCellsIff(name: Arg, ms: seq<Member>, rows: nat)
    requires AllOk(ms, rows) && LongestCell(name, ms, rows).Some?
    ensures EquallyLong(CellsOf(name, ms, rows)) <==> AllOneLength(ms, rows)
    decreases |ms|
  {
    if ms == [] {
      FixedTexts(CellsOf(name, ms, rows), []);
    } else {
      EvenCellsIff(name, ms[..|ms| - 1], rows);
      CellsEquallyLong(name, ms, rows);
      AllOneLengthSnoc(ms, rows);
    }
  }

  lemma {:induction false} VariesSomewhere(ms: seq<Member>, rows: nat, name: Arg)
    ensures Total(ms, rows, name).varies <==> exists m <- ms :: Varies(m.kind)
    decreases |ms|
  {
    if ms != [] {
      VariesSomewhere(ms[..|ms| - 1], rows, name);
      assert ms == ms[..|ms| - 1] + [ms[|ms| - 1]];
    }
  }

  lemma {:induction false} NoCells(name: Arg, ms: seq<Member>, rows: nat)
    requires LongestCell(name, ms, rows).None?
    ensures exists m <- ms :: IsRandom(m.kind)
    decreases |ms|
  {
    if ms != [] && Longest(name, ms[|ms| - 1], rows).Some? {
      NoCells(name, ms[..|ms| - 1], rows);
    }
  }

  /** A JOIN is declared CHAR only if all its cells are equally long, and at most 255. */
  lemma CharIsEven(name: Arg, ms: seq<Member>, rows: nat)
    requires AllOk(ms, rows) && Closed(Total(ms, rows, name)).Char?
    ensures EquallyLong(CellsOf(name, ms, rows)) && AllFit(CellsOf(name, ms, rows), CHAR_LENGTH_MAX)
  {
    VariesSomewhere(ms, rows, name);
    if LongestCell(name, ms, rows).None? {
      NoCells(name, ms, rows);
      assert false;
    }
    EvenCellsIff(name, ms, rows);
    JoinFits(name, ms, rows);
  }

  /** Of the JOINs whose cells are equally long, those are declared VARCHAR all the same that have
      more than 255 characters reserved, or a counter or random integer among their members. */
  lemma EvenVarcharIff(name: Arg, ms: seq<Member>, rows: nat)
    requires AllOk(ms, rows) && LongestCell(name, ms, rows).Some? && EquallyLong(CellsOf(name, ms, rows))
    ensures Closed(Total(ms, rows, name)).Varchar? <==>
            Total(ms, rows, name).length > CHAR_LENGTH_MAX || exists m <- ms :: IsCounter(m.kind) || IsRandom(m.kind)
  {
    EvenCellsIff(name, ms, rows);
    VariesSomewhere(ms, rows, name);
  }

  /** Whatever the table, column and group, the texts of a member of this kind are equally long. */
  ghost predicate EquallyLongByKind(k: Kind) {
    forall name: Arg, grp: Option<Grp>, rows: nat ::
      MemberOk(Member(k, grp), rows) && 1 <= rows <= UPTO_MAX ==> EquallyLong(TextsOf(name, Member(k, grp), rows))
  }

  /** A setter leaves CHAR alone if and only if the texts of the kind are equally long, random integers
      aside, whose setters never do. */
  lemma VariesIff(k: Kind)
    requires KindOk(k)
    ensures !Varies(k) <==> !IsRandom(k) && EquallyLongByKind(k)
  {
    if !Varies(k) {
      forall name: Arg, grp: Option<Grp>, rows: nat | MemberOk(Member(k, grp), rows) && 1 <= rows <= UPTO_MAX
        ensures EquallyLong(TextsOf(name, Member(k, grp), rows))
      {
        MemberTexts(name, Member(k, grp), rows);
      }
    } else if !IsRandom(k) {
      assert MemberOk(Member(k, None), 10);
      MemberTexts([], Member(k, None), 10);
      assert !EquallyLong(TextsOf([], Member(k, None), 10));
    }
  }

  /** A JOIN is CHAR if and only if none of its members is a random integer, the texts of all are
      equally long by kind, and no more than 255 is reserved. */
  lemma CharIffByKind(name: Arg, ms: seq<Member>, rows: nat)
    requires AllOk(ms, rows)
    ensures Closed(Total(ms, rows, name)).Char? <==>
            Total(ms, rows, name).length <= 255 && forall m <- ms :: !IsRandom(m.kind) && EquallyLongByKind(m.kind)
    ensures var t := Closed(Total(ms, rows, name)); (t.Char? || t.Varchar?) && t.length == Total(ms, rows, name).length
  {
    VariesSomewhere(ms, rows, name);
    forall m <- ms ensures !Varies(m.kind) <==> !IsRandom(m.kind) && EquallyLongByKind(m.kind) {
      VariesIff(m.kind);
    }
  }

  /** In particular, without slack, if and only if the texts are equally long by kind and the longest cell
      has at most 255 octets. */
  lemma TightCharIff(name: Arg, ms: seq<Member>, rows: nat)
    requires AllOk(ms, rows) && forall m <- ms :: IsTight(m)
    ensures LongestCell(name, ms, rows).Some?
    ensures Closed(Total(ms, rows, name)).Char? <==>
            LongestCell(name, ms, rows).value <= 255 && forall m <- ms :: EquallyLongByKind(m.kind)
  {
    TightHaveNoSlack(name, ms, rows);
    TotalIs(name, ms, rows);
    CharIffByKind(name, ms, rows);
  }

  /** `-s -j -i -u` in a table of 9 rows: every cell is one character, in a VARCHAR(1). */
  lemma EvenVarcharWitness(name: Arg)
    ensures var ms := [Member(IntUnique(Signed), None)];
            EquallyLong(CellsOf(name, ms, 9)) && Closed(Total(ms, 9, name)) == Varchar(1)
  {
    var m := Member(IntUnique(Signed), None);
    TotalOfOne(name, m, 9);
    EvenCellsIff(name, [m], 9);
  }
}
