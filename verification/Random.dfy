/** Random integer columns: the generator chosen for each qualifier, what it can produce, and when
    that is exactly what was asked for. */
module Random {
  import opened Octets
  import opened Numbers
  import opened Specs

  const TWO32: nat := 0x1_0000_0000
  const TWO64: nat := 0x1_0000_0000_0000_0000

  datatype Width = W32 | W64

  /** The number of words of a width. */
  function Words(w: Width): nat {
    if w.W32? then TWO32 else TWO64
  }

  /** Conversion to an integer type of the width: two's complement when signed. */
  function Convert(s: Sign, w: Width, v: int): int {
    var m := v % Words(w);
    if s.Signed? && 2 * m >= Words(w) then m - Words(w) else m
  }

  predicate Fits(s: Sign, w: Width, v: int) {
    if s.Signed? then -(Words(w) / 2) <= v < Words(w) / 2 else 0 <= v < Words(w)
  }

  /** RANDOM_THRESHOLD in arithmetic of width `w`, which divides by the span. */
  function Threshold(w: Width, span: nat): nat
    requires span > 0
  {
    ((-(span as int)) % Words(w)) % span
  }

  /** `Bound` draws words of width `draw` until one reaches the threshold, which was computed from
      the span in arithmetic of width `wrap`, and adds the remainder by the span to the offset in
      arithmetic of width `sum`. */
  datatype Gen =
    | Unbound(sign: Sign, draw: Width)
    | Bound(sign: Sign, draw: Width, wrap: Width, span: nat, offset: int, sum: Width)

  /** The setter that stored this has divided by zero, while it computed the threshold. */
  predicate ZeroSpan(g: Gen) {
    g.Bound? && g.span == 0
  }

  /** The threshold as stored in a field of width `draw`. */
  function StoredThreshold(g: Gen): nat
    requires g.Bound? && !ZeroSpan(g)
  {
    Threshold(g.wrap, g.span) % Words(g.draw)
  }

  /** The value made of a word; None if it is drawn anew, or if nothing is defined any more. */
  function Draw(g: Gen, word: nat): Option<int> {
    match g
    case Unbound(s, w) => Some(Convert(s, w, word))
    case Bound(s, _, _, span, offset, sum) =>
      if ZeroSpan(g) || word < StoredThreshold(g) then None else Some(Convert(s, sum, word % span + offset))
  }

  ghost function Draws(g: Gen, v: int): set<nat> {
    set word: nat | word < Words(g.draw) && Draw(g, word) == Some(v)
  }

  ghost predicate Produces(g: Gen, v: int) {
    exists word: nat :: word < Words(g.draw) && Draw(g, word) == Some(v)
  }

  /** The generator produces the interval, all of it and nothing else. */
  ghost predicate Exactly(g: Gen, low: int, high: int) {
    forall v: int :: Produces(g, v) <==> low <= v <= high
  }

  /** Every value of the interval is made of equally many words. */
  ghost predicate Uniform(g: Gen, low: int, high: int) {
    forall u: int, v: int {:trigger Draws(g, u), Draws(g, v)} ::
      low <= u <= high && low <= v <= high ==> |Draws(g, u)| == |Draws(g, v)|
  }

  datatype IntType = Tiny(sign: Sign) | Small(sign: Sign) | Medium(sign: Sign) | Int(sign: Sign) | Big(sign: Sign)

  function Bits(t: IntType): nat {
    match t
    case Tiny(_) => 0x100
    case Small(_) => 0x1_0000
    case Medium(_) => 0x100_0000
    case Int(_) => TWO32
    case Big(_) => TWO64
  }

  function TypeLow(t: IntType): int {
    if t.sign.Signed? then -(Bits(t) / 2) else 0
  }

  function TypeHigh(t: IntType): int {
    if t.sign.Signed? then Bits(t) / 2 - 1 else Bits(t) - 1
  }

  predicate Holds(t: IntType, v: int) {
    TypeLow(t) <= v <= TypeHigh(t)
  }

  /** `width` is width_max, with room for a sign and the terminator; `length` is what the JOIN twin
      adds to its length; `flag` tells which random number generator must be constructed. */
  datatype Plan = Plan(gen: Gen, kind: IntType, width: nat, length: nat, flag: Width)

  function Wide(s: Sign, g: Gen): Plan {
    Plan(g, Big(s), 21, 20, g.draw)
  }

  /** One character less, for values that are not below INT32_MIN. */
  function WideFromInt32(g: Gen): Plan {
    Plan(g, Big(Signed), 20, 19, g.draw)
  }

  function Narrow(s: Sign, g: Gen): Plan {
    if s.Signed? then Plan(g, Int(s), 12, 11, g.draw) else Plan(g, Int(s), 11, 10, g.draw)
  }

  function Full(s: Sign, w: Width): Plan {
    if w.W32? then Narrow(s, Unbound(s, W32)) else Wide(s, Unbound(s, W64))
  }

  function Roomier(p: Plan): Plan {
    p.(width := p.width + 1)
  }

  function Spanning(s: Sign, draw: Width, span: nat, offset: int, sum: Width): Gen {
    Bound(s, draw, draw, span, offset, sum)
  }

  /** assign_integer_random_from. */
  function AssignFrom(from: int): Plan {
    var span := (INT64_MAX - from + 1) % TWO64;
    if from < INT32_MIN then Wide(Signed, Spanning(Signed, W64, span, from, W64))
    else if from > INT32_MAX then WideFromInt32(Spanning(Signed, if span < UINT32_MAX then W32 else W64, span, from, W64))
    else Narrow(Signed, Spanning(Signed, W32, (INT32_MAX - from + 1) % TWO32, from, W32))
  }

  /** assign_integer_random_upto; its last branch computes the threshold of a 32-bit generator
      from a 64-bit span. */
  function AssignUpto(upto: int): Plan {
    var span := (upto - INT64_MIN + 1) % TWO64;
    if upto > INT32_MAX then Wide(Signed, Spanning(Signed, W64, span, INT64_MIN, W64))
    else if upto < INT32_MIN then Wide(Signed, Spanning(Signed, if span > UINT32_MAX then W64 else W32, span, INT64_MIN, W64))
    else
      var span32 := (upto - INT32_MIN + 1) % TWO64;
      Narrow(Signed, Bound(Signed, W32, W64, span32 % TWO32, INT32_MIN, W32))
  }

  /** assign_integer_random_range. */
  function AssignRange(low: int, high: int, span: nat): Plan {
    if low < INT32_MIN then Wide(Signed, Spanning(Signed, W64, span, low, W64))
    else if high > INT32_MAX then WideFromInt32(Spanning(Signed, if span < UINT32_MAX then W32 else W64, span, low, W64))
    else Narrow(Signed, Spanning(Signed, W32, span % TWO32, low, W32))
  }

  /** assign_u_integer_random_from. */
  function AssignUFrom(from: int): Plan {
    var span := (UINT64_MAX - from + 1) % TWO64;
    if from > UINT32_MAX then Wide(Unsigned, Spanning(Unsigned, if span < UINT32_MAX then W32 else W64, span, from, W64))
    else Narrow(Unsigned, Spanning(Unsigned, W32, (UINT32_MAX - from + 1) % TWO32, from, W32))
  }

  /** assign_u_integer_random_upto. */
  function AssignUUpto(upto: int): Plan {
    if upto > UINT32_MAX then Wide(Unsigned, Spanning(Unsigned, W64, (upto + 1) % TWO64, 0, W64))
    else Narrow(Unsigned, Spanning(Unsigned, W32, (upto + 1) % TWO32, 0, W32))
  }

  /** assign_u_integer_random_range; the test on the span is the wrong way round, so that a span
      of more than 32 bits loses its upper half. */
  function AssignURange(low: int, high: int, span: nat): Plan {
    if high > UINT32_MAX then
      if span > UINT32_MAX then Wide(Unsigned, Spanning(Unsigned, W32, span % TWO32, low, W64))
      else Wide(Unsigned, Spanning(Unsigned, W64, span, low, W64))
    else Narrow(Unsigned, Spanning(Unsigned, W32, span % TWO32, low, W32))
  }

  predicate IsRandom(k: Kind) {
    k.IntRandom? || k.IntFrom? || k.IntUpto? || k.IntRange?
  }

  /** A difference in 64-bit unsigned arithmetic. */
  function Distance(low: int, high: int): (delta: nat)
    ensures 0 <= high - low < TWO64 ==> delta == high - low
  {
    (high - low) % TWO64
  }

  /** The setters of random integers; `grouped` tells that it is one of the column_*_group setters.
      The switch of column_integer_random_from_group has no returns, and
      column_u_integer_random_upto_group allows one character more for the full 32-bit type. */
  function PlanOf(k: Kind, grouped: bool): Plan
    requires IsRandom(k)
  {
    match k
    case IntRandom(s) => Full(s, W32)
    case IntFrom(Signed, low) =>
      if low == INT32_MIN && !grouped then Full(Signed, W32)
      else if low == INT64_MIN && !grouped then Full(Signed, W64)
      else AssignFrom(low)
    case IntFrom(Unsigned, low) => if low == 0 then Full(Unsigned, W32) else AssignUFrom(low)
    case IntUpto(s, high) =>
      if high == TypeHigh(Int(s)) then (if s.Unsigned? && grouped then Roomier(Full(s, W32)) else Full(s, W32))
      else if high == TypeHigh(Big(s)) then Full(s, W64)
      else if s.Signed? then AssignUpto(high)
      else AssignUUpto(high)
    case IntRange(s, low, high) =>
      var delta := Distance(low, high);
      if delta == UINT32_MAX then Full(s, W32)
      else if delta == UINT64_MAX then Full(s, W64)
      else if s.Signed? then AssignRange(low, high, delta + 1)
      else AssignURange(low, high, delta + 1)
  }

  /** The type whose values an open-ended qualifier ranges over: the 32-bit one if it can. */
  function OpenType(s: Sign, end: int): IntType {
    if Holds(Int(s), end) then Int(s) else Big(s)
  }

  /** The interval that is asked for. */
  function Low(k: Kind): int
    requires IsRandom(k)
  {
    match k
    case IntRandom(s) => TypeLow(Int(s))
    case IntFrom(_, low) => low
    case IntUpto(s, high) => TypeLow(OpenType(s, high))
    case IntRange(_, low, _) => low
  }

  function High(k: Kind): int
    requires IsRandom(k)
  {
    match k
    case IntRandom(s) => TypeHigh(Int(s))
    case IntFrom(s, low) => TypeHigh(OpenType(s, low))
    case IntUpto(_, high) => high
    case IntRange(_, _, high) => high
  }

  /** A 32-bit signed maximum. */
  predicate IsMixed(k: Kind) {
    k.IntUpto? && k.sign.Signed? && INT32_MIN <= k.high < INT32_MAX
  }

  /** The span of `-i -r -u MAX` when its threshold is computed for the wrong width, else 1. */
  function MixedSpan(k: Kind): nat {
    if IsMixed(k) then k.high - INT32_MIN + 1 else 1
  }

  /** When the generator produces what was asked for. */
  predicate Sound(k: Kind, grouped: bool) {
    match k
    case IntFrom(Signed, low) => grouped ==> low != INT32_MIN && low != INT64_MIN
    case IntUpto(Signed, _) => TWO64 % MixedSpan(k) + MixedSpan(k) <= TWO32
    case IntRange(Signed, low, high) => high - low == UINT32_MAX ==> low == INT32_MIN
    case IntRange(Unsigned, low, high) =>
      if high - low == UINT32_MAX then low == 0
      else high <= UINT32_MAX || high - low < UINT32_MAX || high - low == UINT64_MAX
    case _ => true
  }

  /** When it does so with equal chances. */
  predicate Fair(k: Kind, grouped: bool) {
    Sound(k, grouped) && TWO64 % MixedSpan(k) == TWO32 % MixedSpan(k)
  }

  // ---------- remainders ----------

  ghost function Residues(from: nat, until: nat, span: nat, r: nat): set<nat>
    requires span > 0
  {
    set w: nat | from <= w < until && w % span == r
  }

  lemma NoMultipleBetween(span: int, d: int)
    requires -span < span * d < span
    ensures d == 0
  {
    assert d >= 1 ==> span * d >= span;
    assert d <= -1 ==> span * d <= -span;
  }

  lemma SameRemainder(v: nat, w: nat, span: nat)
    requires span > 0 && v <= w < v + span && v % span == w % span
    ensures v == w
  {
    assert w - v == span * (w / span - v / span);
    NoMultipleBetween(span, w / span - v / span);
  }

  lemma RemainderUnique(q: int, span: nat, r: nat, w: int)
    requires r < span && w == q * span + r
    ensures w % span == r
  {
    assert span * (w / span - q) == r - w % span;
    NoMultipleBetween(span, w / span - q);
  }

  /** The only word with remainder `r` among `span` consecutive ones. */
  lemma OneInBlock(from: nat, span: nat, r: nat) returns (w: nat)
    requires r < span
    ensures from <= w < from + span && w % span == r
    ensures Residues(from, from + span, span, r) == {w}
  {
    var q, t := from / span, from % span;
    if r >= t {
      w := from + (r - t);
      RemainderUnique(q, span, r, w);
    } else {
      w := from + (r - t) + span;
      RemainderUnique(q + 1, span, r, w);
    }
    forall v: nat {:trigger v % span} | from <= v < from + span && v % span == r ensures v == w {
      if v <= w {
        SameRemainder(v, w, span);
      } else {
        SameRemainder(w, v, span);
      }
    }
  }

  lemma {:induction false} CountBlocks(from: nat, n: nat, span: nat, r: nat)
    requires r < span
    ensures |Residues(from, from + n * span, span, r)| == n
    decreases n
  {
    if n == 0 {
      assert Residues(from, from, span, r) == {};
    } else {
      CountBlocks(from, n - 1, span, r);
      var until := from + (n - 1) * span;
      assert until + span == from + n * span;
      var w := OneInBlock(until, span, r);
      assert Residues(from, until + span, span, r) == Residues(from, until, span, r) + Residues(until, until + span, span, r);
    }
  }

  lemma DivisionFacts(n: nat, span: nat)
    requires 0 < span <= n
    ensures n % span + span <= n && (n - n % span) % span == 0 && (n - span) % span == n % span
  {
    var q, t := n / span, n % span;
    assert n == q * span + t;
    assert q <= 0 ==> q * span <= 0;
    assert q >= 1 ==> q * span >= span;
    RemainderUnique(q, span, 0, n - t);
    assert n - span == (q - 1) * span + t;
    RemainderUnique(q - 1, span, t, n - span);
  }

  /** The threshold leaves a multiple of the span. */
  lemma ThresholdLeavesBlocks(w: Width, span: nat)
    requires 0 < span < Words(w)
    ensures Threshold(w, span) == Words(w) % span < span
    ensures Threshold(w, span) + span <= Words(w) && (Words(w) - Threshold(w, span)) % span == 0
  {
    DivisionFacts(Words(w), span);
    RemainderUnique(-1, Words(w), Words(w) - span, -(span as int));
  }

  // ---------- one generator ----------

  lemma ConvertKeeps(s: Sign, w: Width, v: int)
    requires Fits(s, w, v)
    ensures Convert(s, w, v) == v
  {
    RemainderUnique(if v < 0 then -1 else 0, Words(w), if v < 0 then v + Words(w) else v, v);
  }

  /** No sum overflows. */
  predicate Regular(g: Gen) {
    && g.Bound? && 0 < g.span < Words(g.draw) <= Words(g.wrap)
    && Fits(g.sign, g.sum, g.offset) && Fits(g.sign, g.sum, g.offset + g.span - 1)
  }

  lemma SmallRemainder(t: nat, n: nat)
    requires t < n
    ensures t % n == t
  {
  }

  lemma StoredThresholdIs(g: Gen)
    requires Regular(g)
    ensures StoredThreshold(g) == Words(g.wrap) % g.span < g.span
  {
    ThresholdLeavesBlocks(g.wrap, g.span);
    SmallRemainder(Threshold(g.wrap, g.span), Words(g.draw));
  }

  lemma DrawRegular(g: Gen, word: nat)
    requires Regular(g)
    ensures Draw(g, word) == if word < StoredThreshold(g) then None else Some(g.offset + word % g.span)
  {
    ConvertKeeps(g.sign, g.sum, word % g.span + g.offset);
  }

  /** The words that make a value, by remainder. */
  lemma DrawsAreResidues(g: Gen, v: int)
    requires Regular(g)
    ensures Draws(g, v) == if g.offset <= v < g.offset + g.span
                           then Residues(StoredThreshold(g), Words(g.draw), g.span, v - g.offset) else {}
    ensures Produces(g, v) <==> Draws(g, v) != {}
  {
    forall word: nat ensures Draw(g, word) == if word < StoredThreshold(g) then None else Some(g.offset + word % g.span) {
      DrawRegular(g, word);
    }
    if Produces(g, v) {
      var word: nat :| word < Words(g.draw) && Draw(g, word) == Some(v);
      assert word in Draws(g, v);
    }
  }

  /** Every remainder turns up exactly when a whole block lies at or above the threshold. */
  lemma ExactlyIff(g: Gen)
    requires Regular(g)
    ensures Exactly(g, g.offset, g.offset + g.span - 1) <==> StoredThreshold(g) + g.span <= Words(g.draw)
  {
    StoredThresholdIs(g);
    if StoredThreshold(g) + g.span <= Words(g.draw) {
      forall v: int ensures Produces(g, v) <==> g.offset <= v <= g.offset + g.span - 1 {
        DrawsAreResidues(g, v);
        if g.offset <= v < g.offset + g.span {
          var w := OneInBlock(StoredThreshold(g), g.span, v - g.offset);
          assert w in Residues(StoredThreshold(g), Words(g.draw), g.span, v - g.offset);
        }
      }
    } else {
      var r := Words(g.draw) % g.span;
      var w := OneInBlock(StoredThreshold(g), g.span, r);
      assert Words(g.draw) in Residues(StoredThreshold(g), StoredThreshold(g) + g.span, g.span, r);
      assert Residues(StoredThreshold(g), Words(g.draw), g.span, r) <= Residues(StoredThreshold(g), StoredThreshold(g) + g.span, g.span, r);
      DrawsAreResidues(g, g.offset + r);
      assert !Produces(g, g.offset + r);
    }
  }

  /** How many words have remainder `r`: one a block, and perhaps one more before the blocks. */
  lemma CountResidues(from: nat, rest: nat, n: nat, span: nat, r: nat)
    requires r < span
    ensures |Residues(from, from + rest + n * span, span, r)| == |Residues(from, from + rest, span, r)| + n
  {
    var until := from + rest + n * span;
    CountBlocks(from + rest, n, span, r);
    assert Residues(from, until, span, r) == Residues(from, from + rest, span, r) + Residues(from + rest, until, span, r);
  }

  ghost predicate EvenlySpread(from: nat, until: nat, span: nat)
    requires span > 0
  {
    forall p: nat, r: nat {:trigger Residues(from, until, span, p), Residues(from, until, span, r)} ::
      p < span && r < span ==> |Residues(from, until, span, p)| == |Residues(from, until, span, r)|
  }

  /** Remainders turn up equally often exactly in whole numbers of blocks. */
  lemma EvenlySpreadIff(from: nat, until: nat, span: nat)
    requires 0 < span && from + span <= until
    ensures EvenlySpread(from, until, span) <==> (until - from) % span == 0
  {
    var rest, n := (until - from) % span, (until - from) / span;
    assert until == from + rest + n * span;
    forall r: nat {:trigger Residues(from, until, span, r)} | r < span
      ensures |Residues(from, until, span, r)| == |Residues(from, from + rest, span, r)| + n
    {
      CountResidues(from, rest, n, span, r);
      if rest == 0 {
        assert Residues(from, from + rest, span, r) == {};
      }
    }
    if rest > 0 {
      var often, seldom := from % span, (from + rest) % span;
      assert from in Residues(from, from + rest, span, often);
      var w := OneInBlock(from, span, seldom);
      assert from + rest in Residues(from, from + span, span, seldom);
      assert Residues(from, from + rest, span, seldom) <= Residues(from, from + span, span, seldom);
      assert Residues(from, from + rest, span, seldom) == {};
      assert |Residues(from, until, span, often)| != |Residues(from, until, span, seldom)|;
    }
  }

  lemma UniformIff(g: Gen)
    requires Regular(g) && StoredThreshold(g) + g.span <= Words(g.draw)
    ensures Uniform(g, g.offset, g.offset + g.span - 1) <==> (Words(g.draw) - StoredThreshold(g)) % g.span == 0
  {
    var t, until := StoredThreshold(g), Words(g.draw);
    EvenlySpreadIff(t, until, g.span);
    UniformIsEvenSpread(g, t, until);
  }

  lemma UniformIsEvenSpread(g: Gen, t: nat, until: nat)
    requires Regular(g) && t == StoredThreshold(g) && until == Words(g.draw)
    ensures Uniform(g, g.offset, g.offset + g.span - 1) <==> EvenlySpread(t, until, g.span)
  {
    forall v: int {:trigger Draws(g, v)} | g.offset <= v < g.offset + g.span
      ensures Draws(g, v) == Residues(t, until, g.span, v - g.offset)
    {
      DrawsAreResidues(g, v);
    }
    if Uniform(g, g.offset, g.offset + g.span - 1) {
      forall p: nat, r: nat {:trigger Residues(t, until, g.span, p), Residues(t, until, g.span, r)} | p < g.span && r < g.span
        ensures |Residues(t, until, g.span, p)| == |Residues(t, until, g.span, r)|
      {
        assert |Draws(g, g.offset + p)| == |Draws(g, g.offset + r)|;
      }
    }
  }

  /** With a threshold for its own width a generator is exact and uniform. */
  lemma SpanningIsFair(s: Sign, draw: Width, span: nat, offset: int, sum: Width)
    requires 0 < span < Words(draw) && Fits(s, sum, offset) && Fits(s, sum, offset + span - 1)
    ensures var g := Spanning(s, draw, span, offset, sum);
            Exactly(g, offset, offset + span - 1) && Uniform(g, offset, offset + span - 1)
  {
    var g := Spanning(s, draw, span, offset, sum);
    StoredThresholdIs(g);
    DivisionFacts(Words(draw), span);
    ExactlyIff(g);
    UniformIff(g);
  }

  /** The one word that a full-width generator makes a value of. */
  lemma WordOf(s: Sign, w: Width, v: int, word: nat)
    requires word < Words(w)
    ensures Convert(s, w, word) == v <==> Fits(s, w, v) && word == v % Words(w)
  {
    if Fits(s, w, v) {
      ConvertKeeps(s, w, v);
    }
  }

  lemma UnboundDraws(s: Sign, w: Width, v: int)
    ensures Draws(Unbound(s, w), v) == if Fits(s, w, v) then {v % Words(w)} else {}
    ensures Produces(Unbound(s, w), v) <==> Fits(s, w, v)
  {
    var g := Unbound(s, w);
    forall word: nat | word < Words(w) ensures Draw(g, word) == Some(v) <==> Fits(s, w, v) && word == v % Words(w) {
      WordOf(s, w, v, word);
    }
    if Fits(s, w, v) {
      var word: nat := v % Words(w);
      assert Draw(g, word) == Some(v);
    }
  }

  /** A full-width generator makes each value of its type from one word. */
  lemma UnboundIsFair(s: Sign, w: Width)
    ensures var g := Unbound(s, w); var t := if w.W32? then Int(s) else Big(s);
            Exactly(g, TypeLow(t), TypeHigh(t)) && Uniform(g, TypeLow(t), TypeHigh(t))
  {
    var g, t := Unbound(s, w), if w.W32? then Int(s) else Big(s);
    forall v: int ensures (Produces(g, v) <==> Holds(t, v)) && (Holds(t, v) ==> |Draws(g, v)| == 1) {
      UnboundDraws(s, w, v);
    }
  }

  // ---------- every qualifier ----------

  /** The interval is produced, all of it and nothing else, each value with the same chance. */
  ghost predicate Serves(g: Gen, k: Kind)
    requires IsRandom(k)
  {
    Exactly(g, Low(k), High(k)) && Uniform(g, Low(k), High(k))
  }

  /** The plain case: the interval as offset and span. */
  predicate IsSpanning(g: Gen, k: Kind)
    requires IsRandom(k)
  {
    && g.Bound? && 0 < High(k) - Low(k) + 1 < Words(g.draw)
    && Fits(k.sign, g.sum, Low(k)) && Fits(k.sign, g.sum, High(k))
    && g == Spanning(k.sign, g.draw, High(k) - Low(k) + 1, Low(k), g.sum)
  }

  lemma SpanningServes(g: Gen, k: Kind)
    requires IsRandom(k) && IsSpanning(g, k)
    ensures Serves(g, k)
  {
    SpanningIsFair(k.sign, g.draw, High(k) - Low(k) + 1, Low(k), g.sum);
  }

  /** Or the whole of a 32-bit or 64-bit type. */
  predicate IsFull(g: Gen, k: Kind)
    requires IsRandom(k)
  {
    var t := if g.draw.W32? then Int(k.sign) else Big(k.sign);
    g == Unbound(k.sign, g.draw) && Low(k) == TypeLow(t) && High(k) == TypeHigh(t)
  }

  lemma FullServes(g: Gen, k: Kind)
    requires IsRandom(k) && IsFull(g, k)
    ensures Serves(g, k)
  {
    UnboundIsFair(k.sign, g.draw);
  }

  lemma PlainServes(g: Gen, k: Kind)
    requires IsRandom(k) && (IsFull(g, k) || IsSpanning(g, k))
    ensures Serves(g, k)
  {
    if IsFull(g, k) {
      FullServes(g, k);
    } else {
      SpanningServes(g, k);
    }
  }

  lemma SignedFromIsPlain(k: Kind)
    requires k.IntFrom? && k.sign.Signed? && KindOk(k)
    ensures IsFull(PlanOf(k, false).gen, k) || IsSpanning(PlanOf(k, false).gen, k)
  {
    var span := INT64_MAX - k.low + 1;
    if span < TWO64 {
      SmallRemainder(span, TWO64);
    }
  }

  lemma UnsignedFromIsPlain(k: Kind)
    requires k.IntFrom? && k.sign.Unsigned? && KindOk(k)
    ensures IsFull(PlanOf(k, false).gen, k) || IsSpanning(PlanOf(k, false).gen, k)
  {
  }

  lemma FromServes(k: Kind)
    requires k.IntFrom? && KindOk(k)
    ensures Serves(PlanOf(k, false).gen, k)
  {
    if k.sign.Signed? {
      SignedFromIsPlain(k);
    } else {
      UnsignedFromIsPlain(k);
    }
    PlainServes(PlanOf(k, false).gen, k);
  }

  lemma FallingFromIff(low: int)
    requires INT64_MIN <= low <= INT64_MAX
    ensures var k := IntFrom(Signed, low);
            if Sound(k, true) then Serves(PlanOf(k, true).gen, k) else !Exactly(PlanOf(k, true).gen, Low(k), High(k))
  {
    var k := IntFrom(Signed, low);
    if Sound(k, true) {
      FromServes(k);
    } else {
      assert PlanOf(k, true).gen.span == 0;
      assert !Produces(PlanOf(k, true).gen, low);
    }
  }

  lemma MixedIff(span: nat)
    requires 0 < span < TWO32
    ensures var g := Bound(Signed, W32, W64, span, INT32_MIN, W32); var high := INT32_MIN + span - 1;
            && (Exactly(g, INT32_MIN, high) <==> TWO64 % span + span <= TWO32)
            && (Exactly(g, INT32_MIN, high) && Uniform(g, INT32_MIN, high) <==>
                TWO64 % span + span <= TWO32 && TWO64 % span == TWO32 % span)
  {
    var g := Bound(Signed, W32, W64, span, INT32_MIN, W32);
    StoredThresholdIs(g);
    ExactlyIff(g);
    var t := TWO64 % span;
    if t + span <= TWO32 {
      UniformIff(g);
      MultipleIff(TWO32, span, t);
    }
  }

  /** Within 32 bits. */
  lemma MixedUptoIff(high: int)
    requires INT32_MIN <= high < INT32_MAX
    ensures var k := IntUpto(Signed, high); var g := PlanOf(k, false).gen;
            && (Exactly(g, Low(k), High(k)) <==> Sound(k, false))
            && (Serves(g, k) <==> Fair(k, false))
  {
    var span := high - INT32_MIN + 1;
    assert PlanOf(IntUpto(Signed, high), false).gen == Bound(Signed, W32, W64, span, INT32_MIN, W32);
    MixedIff(span);
  }

  lemma MultipleIff(n: nat, span: nat, t: nat)
    requires t < span && t <= n
    ensures (n - t) % span == 0 <==> t == n % span
  {
    if (n - t) % span == 0 {
      RemainderUnique((n - t) / span, span, t, n);
    } else if t == n % span {
      RemainderUnique(n / span, span, 0, n - t);
    }
  }

  lemma SignedUptoIsPlain(high: int)
    requires INT64_MIN <= high <= INT64_MAX && !(INT32_MIN <= high < INT32_MAX)
    ensures var k := IntUpto(Signed, high); IsFull(PlanOf(k, false).gen, k) || IsSpanning(PlanOf(k, false).gen, k)
  {
  }

  lemma UnsignedUptoIsPlain(high: int)
    requires 0 <= high <= UINT64_MAX
    ensures var k := IntUpto(Unsigned, high); IsFull(PlanOf(k, false).gen, k) || IsSpanning(PlanOf(k, false).gen, k)
  {
  }

  lemma UptoIsPlain(k: Kind)
    requires k.IntUpto? && KindOk(k) && !IsMixed(k)
    ensures IsFull(PlanOf(k, false).gen, k) || IsSpanning(PlanOf(k, false).gen, k)
  {
    if k.sign.Signed? {
      SignedUptoIsPlain(k.high);
    } else {
      UnsignedUptoIsPlain(k.high);
    }
  }

  lemma UptoServes(k: Kind)
    requires k.IntUpto? && KindOk(k) && !IsMixed(k)
    ensures Serves(PlanOf(k, false).gen, k)
  {
    UptoIsPlain(k);
    PlainServes(PlanOf(k, false).gen, k);
  }

  /** A full 32-bit generator for an interval of that size is right only at the bottom. */
  lemma FullRangeIff(k: Kind)
    requires k.IntRange? && KindOk(k) && (k.high - k.low == UINT32_MAX || k.high - k.low == UINT64_MAX)
    ensures if Sound(k, false) then Serves(PlanOf(k, false).gen, k) else !Exactly(PlanOf(k, false).gen, Low(k), High(k))
  {
    var g := PlanOf(k, false).gen;
    UnboundIsFair(k.sign, g.draw);
    var t := if g.draw.W32? then Int(k.sign) else Big(k.sign);
    assert Produces(g, TypeLow(t)) && Produces(g, TypeHigh(t));
  }

  /** An unsigned span that lost its upper half leaves out the top of the interval. */
  lemma TruncatedRange(k: Kind)
    requires k.IntRange? && k.sign.Unsigned? && KindOk(k) && k.high > UINT32_MAX
    requires UINT32_MAX < k.high - k.low < UINT64_MAX
    ensures !Exactly(PlanOf(k, false).gen, Low(k), High(k))
  {
    var g := PlanOf(k, false).gen;
    if g.span == 0 {
      assert !Produces(g, k.low);
    } else {
      DrawsAreResidues(g, k.low + g.span);
      assert !Produces(g, k.low + g.span);
    }
  }

  lemma SpannedRange(k: Kind)
    requires k.IntRange? && KindOk(k) && Sound(k, false)
    requires k.high - k.low != UINT32_MAX && k.high - k.low != UINT64_MAX
    ensures IsSpanning(PlanOf(k, false).gen, k)
  {
    var span: nat := k.high - k.low + 1;
    if k.sign.Signed? {
      AssignRangeIs(k.low, k.high, span);
    } else {
      AssignURangeIs(k.low, k.high, span);
    }
  }

  lemma AssignRangeIs(low: int, high: int, span: nat)
    requires INT64_MIN <= low <= high <= INT64_MAX && span == high - low + 1 <= UINT64_MAX && span != TWO32
    ensures IsSpanning(AssignRange(low, high, span).gen, IntRange(Signed, low, high))
  {
  }

  lemma AssignURangeIs(low: int, high: int, span: nat)
    requires 0 <= low <= high <= UINT64_MAX && span == high - low + 1
    requires high <= UINT32_MAX || span <= UINT32_MAX
    requires span != TWO32
    ensures IsSpanning(AssignURange(low, high, span).gen, IntRange(Unsigned, low, high))
  {
  }

  lemma RangeIff(k: Kind)
    requires k.IntRange? && KindOk(k)
    ensures if Sound(k, false) then Serves(PlanOf(k, false).gen, k) else !Exactly(PlanOf(k, false).gen, Low(k), High(k))
  {
    if k.high - k.low == UINT32_MAX || k.high - k.low == UINT64_MAX {
      FullRangeIff(k);
    } else if Sound(k, false) {
      SpannedRange(k);
      PlainServes(PlanOf(k, false).gen, k);
    } else {
      TruncatedRange(k);
    }
  }

  /** For every qualifier and every bound: the generator produces exactly the interval asked for if
      and only if `Sound`, and moreover uniformly if and only if `Fair`. */
  lemma RandomIsSoundIff(k: Kind, grouped: bool)
    requires IsRandom(k) && KindOk(k)
    ensures Exactly(PlanOf(k, grouped).gen, Low(k), High(k)) <==> Sound(k, grouped)
    ensures Serves(PlanOf(k, grouped).gen, k) <==> Fair(k, grouped)
  {
    match k
    case IntRandom(s) => UnboundIsFair(s, W32);
    case IntFrom(s, low) => if s.Signed? && grouped { FallingFromIff(low); } else { FromServes(k); }
    case IntUpto(_, high) => if IsMixed(k) { MixedUptoIff(high); } else { UptoServes(k); }
    case IntRange(_, _, _) => RangeIff(k);
  }

  // ---------- inputs that show the departures ----------

  /** `-u -r -r 0 4294967296` only ever produces 0. */
  lemma TruncatedSpanWitness(v: int)
    ensures Produces(PlanOf(IntRange(Unsigned, 0, TWO32), false).gen, v) ==> v == 0
  {
    var g := Spanning(Unsigned, W32, 1, 0, W64);
    UpperHalfLost(IntRange(Unsigned, 0, TWO32));
    assert PlanOf(IntRange(Unsigned, 0, TWO32), false).gen == g;
    DrawsAreResidues(g, v);
  }

  /** `-i -r -r 0 4294967295` produces negative numbers. */
  lemma ShiftedRangeWitness()
    ensures Produces(PlanOf(IntRange(Signed, 0, UINT32_MAX), false).gen, INT32_MIN)
  {
    UnboundIsFair(Signed, W32);
    assert PlanOf(IntRange(Signed, 0, UINT32_MAX), false).gen == Unbound(Signed, W32);
  }

  /** The setter of `-i -r -f -2147483648 -g N` divides by zero, where the one for no groups takes the
      whole of INT. */
  lemma FallThroughWitness()
    ensures ZeroSpan(PlanOf(IntFrom(Signed, INT32_MIN), true).gen)
    ensures PlanOf(IntFrom(Signed, INT32_MIN), false).gen == Unbound(Signed, W32)
  {
  }

  // ---------- division by zero ----------

  /** A grouped signed minimum at the bottom of INT or BIGINT, or an unsigned range above 32 bits, but
      short of 64, whose size is a multiple of 2^32. */
  predicate Divides(k: Kind, grouped: bool) {
    match k
    case IntFrom(Signed, low) => grouped && (low == INT32_MIN || low == INT64_MIN)
    case IntRange(Unsigned, low, high) => UINT32_MAX < high - low < UINT64_MAX && (high - low + 1) % TWO32 == 0
    case _ => false
  }

  lemma UpperHalfLost(k: Kind)
    requires k.IntRange? && k.sign.Unsigned? && KindOk(k) && UINT32_MAX < k.high - k.low < UINT64_MAX
    ensures PlanOf(k, false).gen.Bound? && PlanOf(k, false).gen.span == (k.high - k.low + 1) % TWO32
  {
    SmallRemainder(k.high - k.low, TWO64);
  }

  /** A setter divides by zero if and only if `Divides`. */
  lemma ZeroSpanIff(k: Kind, grouped: bool)
    requires IsRandom(k) && KindOk(k)
    ensures ZeroSpan(PlanOf(k, grouped).gen) <==> Divides(k, grouped)
  {
    match k
    case IntRandom(_) =>
    case IntFrom(s, _) => if s.Signed? { SignedFromIsPlain(k); } else { UnsignedFromIsPlain(k); }
    case IntUpto(_, _) => UptoNeverDivides(k, grouped);
    case IntRange(_, _, _) => RangeDividesIff(k);
  }

  lemma UptoNeverDivides(k: Kind, grouped: bool)
    requires k.IntUpto? && KindOk(k)
    ensures !ZeroSpan(PlanOf(k, grouped).gen)
  {
    if !IsMixed(k) {
      UptoIsPlain(k);
    }
  }

  lemma RangeDividesIff(k: Kind)
    requires k.IntRange? && KindOk(k)
    ensures ZeroSpan(PlanOf(k, false).gen) <==> Divides(k, false)
  {
    if k.sign.Unsigned? && UINT32_MAX < k.high - k.low < UINT64_MAX {
      UpperHalfLost(k);
    } else if k.high - k.low != UINT32_MAX && k.high - k.low != UINT64_MAX {
      SpannedRange(k);
    }
  }

  /** `-i -r -u 2147483642` leaves out values, 5 above the minimum for one. */
  lemma WrongThresholdWitness()
    ensures !Produces(PlanOf(IntUpto(Signed, INT32_MAX - 5), false).gen, INT32_MIN + 5)
  {
    var g := Bound(Signed, W32, W64, 4294967291, INT32_MIN, W32);
    assert PlanOf(IntUpto(Signed, INT32_MAX - 5), false).gen == g;
    StoredThresholdIs(g);
    DrawsAreResidues(g, INT32_MIN + 5);
    RemainderLeftOut();
  }

  lemma RemainderLeftOut()
    ensures TWO64 % 4294967291 == 25
    ensures Residues(25, TWO32, 4294967291, 5) == {}
  {
  }

  // ---------- types and widths ----------

  /** Longest text of the integers of a width. */
  lemma TextFits(s: Sign, w: Width, v: int)
    requires Fits(s, w, v)
    ensures |Text(v)| <= match (s, w) { case (Signed, W32) => 11 case (Unsigned, W32) => 10 case (_, W64) => 20 }
  {
    TextLength(v);
  }

  /** No number of at most this many bits has more digits. */
  lemma DigitsBelow32(n: nat)
    requires n <= TWO32
    ensures |Decimal(n)| <= 10
  {
    UintDigitCountIsLength(TWO32);
    DecimalMonotone(n, TWO32);
  }

  lemma DigitsBelow63(n: nat)
    requires n <= TWO64 / 2
    ensures |Decimal(n)| <= 19
  {
    UintDigitCountIsLength(TWO64 / 2);
    DecimalMonotone(n, TWO64 / 2);
  }

  lemma DigitsBelow64(n: nat)
    requires n <= UINT64_MAX
    ensures |Decimal(n)| <= 20
  {
    UintDigitCountIsLength(n);
  }

  lemma TextLength(v: int)
    ensures 0 <= v < TWO32 ==> |Text(v)| <= 10
    ensures -(TWO32 as int) < v < 0 ==> |Text(v)| <= 11
    ensures 0 <= v <= INT64_MAX ==> |Text(v)| <= 19
    ensures 0 <= v < TWO64 || -(TWO64 / 2) <= v < 0 ==> |Text(v)| <= 20
  {
    var n: nat := if v < 0 then -v else v;
    if n < TWO32 {
      DigitsBelow32(n);
    } else if n <= TWO64 / 2 {
      DigitsBelow63(n);
    } else if n < TWO64 {
      DigitsBelow64(n);
    }
  }

  lemma ConvertFits(s: Sign, w: Width, v: int)
    ensures Fits(s, w, Convert(s, w, v))
  {
  }

  /** Only intervals above INT32_MIN get the shorter width. */
  lemma ShortWidth(k: Kind, grouped: bool, v: int)
    requires IsRandom(k) && KindOk(k) && PlanOf(k, grouped).kind == Big(Signed) && PlanOf(k, grouped).width == 20
    requires Produces(PlanOf(k, grouped).gen, v)
    ensures INT32_MIN <= v <= INT64_MAX
  {
    RandomIsSoundIff(k, grouped);
    assert Sound(k, grouped);
  }

  lemma ProducedShaped(p: Plan, v: int)
    requires Shaped(p) && Produces(p.gen, v) && (p.length == 19 ==> INT32_MIN <= v <= INT64_MAX)
    ensures Holds(p.kind, v) && |Text(v)| + 1 <= p.width && |Text(v)| <= p.length
  {
    var g := p.gen;
    var word: nat :| word < Words(g.draw) && Draw(g, word) == Some(v);
    if g.Unbound? {
      ConvertFits(g.sign, g.draw, word);
      TextFits(g.sign, g.draw, v);
    } else {
      ConvertFits(g.sign, g.sum, word % g.span + g.offset);
      TextFits(g.sign, g.sum, v);
    }
    TextLength(v);
  }

  /** Whatever is produced, even by an unsound generator, is a value of the declared type and
      prints within width_max, terminator included, and within what a JOIN reserves for it. */
  lemma {:induction false} ProducedFits(k: Kind, grouped: bool, v: int)
    requires IsRandom(k) && KindOk(k) && Produces(PlanOf(k, grouped).gen, v)
    ensures var p := PlanOf(k, grouped); Holds(p.kind, v) && |Text(v)| + 1 <= p.width && |Text(v)| <= p.length
  {
    var p := PlanOf(k, grouped);
    PlanShape(k, grouped);
    if p.length == 19 {
      ShortWidth(k, grouped, v);
    }
    ProducedShaped(p, v);
  }

  /** The type and the widths go with the arithmetic of the generator. */
  predicate Shaped(p: Plan) {
    var sum := if p.gen.Unbound? then p.gen.draw else p.gen.sum;
    && p.gen.sign == p.kind.sign && p.flag == p.gen.draw && p.length + 1 <= p.width <= p.length + 2
    && if sum.W32? then p.kind.Int? && p.length == (if p.kind.sign.Signed? then 11 else 10)
       else p.kind.Big? && (p.length == 20 || (p.length == 19 && p.kind.sign.Signed?))
  }

  lemma BuildersShape(s: Sign, g: Gen)
    requires g.sign == s
    ensures g.Bound? && g.sum.W64? ==> Shaped(Wide(s, g)) && (s.Signed? ==> Shaped(WideFromInt32(g)))
    ensures g.Bound? && g.sum.W32? && g.draw.W32? ==> Shaped(Narrow(s, g))
    ensures Shaped(Full(s, W32)) && Shaped(Full(s, W64))
  {
  }

  lemma PlanShape(k: Kind, grouped: bool)
    requires IsRandom(k)
    ensures Shaped(PlanOf(k, grouped))
  {
    var p := PlanOf(k, grouped);
    var s := k.sign;
    BuildersShape(s, p.gen);
    assert || p == Full(s, W32) || p == Roomier(Full(s, W32)) || p == Full(s, W64)
           || p == Wide(s, p.gen) || p == WideFromInt32(p.gen) || p == Narrow(s, p.gen);
  }

  // ---------- what is printed, whether it is what was asked for or not ----------

  /** The least and the greatest value that a generator makes; None when it makes none. */
  function Ends(g: Gen): Option<(int, int)> {
    match g
    case Unbound(s, w) => var t := if w.W32? then Int(s) else Big(s); Some((TypeLow(t), TypeHigh(t)))
    case Bound(_, _, _, span, offset, _) => if span == 0 then None else Some((offset, offset + span - 1))
  }

  ghost predicate AreEnds(g: Gen, ends: Option<(int, int)>) {
    match ends
    case None => forall v: int :: !Produces(g, v)
    case Some((low, high)) => Produces(g, low) && Produces(g, high) && forall v: int :: Produces(g, v) ==> low <= v <= high
  }

  lemma RegularEnds(g: Gen)
    requires Regular(g)
    ensures AreEnds(g, Ends(g))
  {
    StoredThresholdIs(g);
    DrawRegular(g, g.span);
    DrawRegular(g, g.span - 1);
    RemainderUnique(1, g.span, 0, g.span);
    SmallRemainder(g.span - 1, g.span);
    assert Draw(g, g.span) == Some(g.offset) && Draw(g, g.span - 1) == Some(g.offset + g.span - 1);
    forall v: int | Produces(g, v) ensures g.offset <= v <= g.offset + g.span - 1 {
      DrawsAreResidues(g, v);
    }
  }

  /** No sum of any plan overflows, unless the generator draws nothing. */
  lemma BoundIsRegular(k: Kind, grouped: bool)
    requires IsRandom(k) && KindOk(k) && PlanOf(k, grouped).gen.Bound? && PlanOf(k, grouped).gen.span > 0
    ensures Regular(PlanOf(k, grouped).gen)
    ensures PlanOf(k, grouped).gen.wrap == PlanOf(k, grouped).gen.draw || IsMixed(k)
  {
    match k
    case IntRandom(_) =>
    case IntFrom(_, _) => FromIsRegular(k, grouped);
    case IntUpto(_, _) => if !IsMixed(k) { UptoIsPlain(k); }
    case IntRange(_, _, _) => RangeIsRegular(k);
  }

  lemma FromIsRegular(k: Kind, grouped: bool)
    requires k.IntFrom? && KindOk(k) && PlanOf(k, grouped).gen.Bound? && PlanOf(k, grouped).gen.span > 0
    ensures Regular(PlanOf(k, grouped).gen) && PlanOf(k, grouped).gen.wrap == PlanOf(k, grouped).gen.draw
  {
    if k.sign.Signed? {
      SignedFromIsPlain(k);
    } else {
      UnsignedFromIsPlain(k);
    }
  }

  lemma RangeIsRegular(k: Kind)
    requires k.IntRange? && KindOk(k) && PlanOf(k, false).gen.Bound? && PlanOf(k, false).gen.span > 0
    ensures Regular(PlanOf(k, false).gen) && PlanOf(k, false).gen.wrap == PlanOf(k, false).gen.draw
  {
    if Sound(k, false) {
      SpannedRange(k);
    }
  }

  /** Of every generator that is ever stored. */
  lemma EndsAreMade(k: Kind, grouped: bool)
    requires IsRandom(k) && KindOk(k)
    ensures AreEnds(PlanOf(k, grouped).gen, Ends(PlanOf(k, grouped).gen))
  {
    var g := PlanOf(k, grouped).gen;
    if g.Unbound? {
      UnboundIsFair(g.sign, g.draw);
    } else if g.span > 0 {
      BoundIsRegular(k, grouped);
      RegularEnds(g);
    }
  }

  lemma TextMonotone(low: int, v: int, high: int)
    requires low <= v <= high
    ensures 0 <= v ==> |Text(v)| <= |Text(high)|
    ensures v < 0 ==> |Text(v)| <= |Text(low)|
  {
    if 0 <= v {
      DecimalMonotone(v, high);
    } else {
      DecimalMonotone(-v, -low);
    }
  }

  function WiderText(low: int, high: int): nat {
    if |Text(low)| < |Text(high)| then |Text(high)| else |Text(low)|
  }

  /** The longest text a generator prints. */
  function Widest(g: Gen): Option<nat> {
    match Ends(g)
    case None => None
    case Some((low, high)) => Some(WiderText(low, high))
  }

  ghost predicate PrintsText(g: Gen, s: Arg) {
    exists v: int :: Produces(g, v) && s == Text(v)
  }

  lemma WidestIsPrinted(g: Gen)
    requires AreEnds(g, Ends(g))
    ensures Widest(g).None? ==> forall s: Arg :: !PrintsText(g, s)
    ensures Widest(g).Some? ==> forall s: Arg :: PrintsText(g, s) ==> |s| <= Widest(g).value
    ensures Widest(g).Some? ==> exists s: Arg :: PrintsText(g, s) && |s| == Widest(g).value
  {
    if Ends(g).Some? {
      var (low, high) := Ends(g).value;
      forall s: Arg | PrintsText(g, s) ensures |s| <= WiderText(low, high) {
        var v: int :| Produces(g, v) && s == Text(v);
        TextMonotone(low, v, high);
      }
      assert PrintsText(g, Text(low)) && PrintsText(g, Text(high));
    }
  }

  /** Everything a generator prints is equally long. */
  predicate IsEven(g: Gen) {
    match Ends(g)
    case None => true
    case Some((low, high)) => |Text(low)| == |Text(high)| && !(low < 0 <= high)
  }

  lemma EvenBetween(low: int, v: int, high: int)
    requires low <= v <= high && |Text(low)| == |Text(high)| && !(low < 0 <= high)
    ensures |Text(v)| == |Text(low)|
  {
    TextMonotone(low, v, high);
    TextMonotone(low, low, v);
    TextMonotone(v, high, high);
  }

  lemma ZeroIsShort(low: int)
    requires low < 0
    ensures |Text(low)| > |Text(0)|
  {
  }

  /** A 32-bit signed maximum that is not negative prints shorter than the minimum. */
  lemma MixedIsUneven(high: int)
    requires 0 <= high < TWO32
    ensures |Text(INT32_MIN)| > |Text(high)|
  {
    TextLength(high);
    UintDigitCountIsLength(-INT32_MIN);
  }

  lemma MixedEnds(k: Kind, grouped: bool)
    requires IsRandom(k) && IsMixed(k)
    ensures Ends(PlanOf(k, grouped).gen) == Some((INT32_MIN, k.high))
  {
  }

  lemma SpanMakesZero(g: Gen)
    requires Regular(g) && g.wrap == g.draw && g.offset < 0 <= g.offset + g.span - 1
    ensures Produces(g, 0)
  {
    assert g == Spanning(g.sign, g.draw, g.span, g.offset, g.sum);
    SpanningIsFair(g.sign, g.draw, g.span, g.offset, g.sum);
  }

  /** From a negative to a non-negative value texts differ in length: zero is made, or the ends
      differ. */
  lemma AcrossZero(k: Kind, grouped: bool)
    requires IsRandom(k) && KindOk(k) && Ends(PlanOf(k, grouped).gen).Some?
    requires var (low, high) := Ends(PlanOf(k, grouped).gen).value; low < 0 <= high
    ensures var (low, high) := Ends(PlanOf(k, grouped).gen).value;
            Produces(PlanOf(k, grouped).gen, 0) || |Text(low)| != |Text(high)|
  {
    var g := PlanOf(k, grouped).gen;
    if g.Unbound? {
      UnboundIsFair(g.sign, g.draw);
    } else {
      BoundIsRegular(k, grouped);
      if g.wrap == g.draw {
        SpanMakesZero(g);
      } else {
        MixedEnds(k, grouped);
        MixedIsUneven(k.high);
      }
    }
  }

  ghost predicate PrintsOnly(g: Gen, length: nat) {
    forall s: Arg :: PrintsText(g, s) ==> |s| == length
  }

  ghost predicate PrintsEvenly(g: Gen) {
    exists length: nat :: PrintsOnly(g, length)
  }

  lemma EvenIff(k: Kind, grouped: bool)
    requires IsRandom(k) && KindOk(k)
    ensures PrintsEvenly(PlanOf(k, grouped).gen) <==> IsEven(PlanOf(k, grouped).gen)
  {
    var g := PlanOf(k, grouped).gen;
    EndsAreMade(k, grouped);
    if Ends(g).None? {
      assert PrintsOnly(g, 0);
    } else {
      var (low, high) := Ends(g).value;
      assert PrintsText(g, Text(low)) && PrintsText(g, Text(high));
      if low < 0 <= high {
        AcrossZero(k, grouped);
        ZeroIsShort(low);
        assert Produces(g, 0) ==> PrintsText(g, Text(0));
      } else if IsEven(g) {
        forall s: Arg | PrintsText(g, s) ensures |s| == |Text(low)| {
          var v: int :| Produces(g, v) && s == Text(v);
          EvenBetween(low, v, high);
        }
        assert PrintsOnly(g, |Text(low)|);
      }
    }
  }

  // ---------- the declared type and the widths ----------

  /** The type that a random integer ranges over: INT if it holds the interval asked for, or if both
      ends are given and the interval is of that size, and otherwise BIGINT. */
  function RangedType(k: Kind): IntType
    requires IsRandom(k)
  {
    var s := k.sign;
    if Holds(Int(s), Low(k)) && Holds(Int(s), High(k)) then Int(s)
    else if k.IntRange? && k.high - k.low == UINT32_MAX then Int(s)
    else Big(s)
  }

  lemma FromRanges(k: Kind, grouped: bool)
    requires k.IntFrom? && KindOk(k)
    ensures PlanOf(k, grouped).kind == RangedType(k)
  {
  }

  lemma UptoRanges(k: Kind, grouped: bool)
    requires k.IntUpto? && KindOk(k)
    ensures PlanOf(k, grouped).kind == RangedType(k)
  {
  }

  lemma RangeRanges(k: Kind, grouped: bool)
    requires k.IntRange? && KindOk(k)
    ensures PlanOf(k, grouped).kind == RangedType(k)
  {
    assert Distance(k.low, k.high) == k.high - k.low;
  }

  lemma PlanRanges(k: Kind, grouped: bool)
    requires IsRandom(k) && KindOk(k)
    ensures PlanOf(k, grouped).kind == RangedType(k)
  {
    match k
    case IntRandom(_) =>
    case IntFrom(_, _) => FromRanges(k, grouped);
    case IntUpto(_, _) => UptoRanges(k, grouped);
    case IntRange(_, _, _) => RangeRanges(k, grouped);
  }

  /** The characters of the widest text of that type; of BIGINT only the positive numbers count when
      the interval starts at INT32_MIN or above. */
  function Reserve(k: Kind): nat
    requires IsRandom(k)
  {
    var t := RangedType(k);
    if t == Big(Signed) && Low(k) >= INT32_MIN then |Text(INT64_MAX)| else WiderText(TypeLow(t), TypeHigh(t))
  }

  lemma LimitTexts()
    ensures |Text(INT32_MIN)| == 11 && |Text(INT32_MAX)| == 10 && |Text(UINT32_MAX)| == 10 && |Text(0)| == 1
    ensures |Text(INT64_MIN)| == 20 && |Text(INT64_MAX)| == 19 && |Text(UINT64_MAX)| == 20
  {
    UintDigitCountIsLength(-INT32_MIN);
    UintDigitCountIsLength(INT32_MAX);
    UintDigitCountIsLength(UINT32_MAX);
    UintDigitCountIsLength(-INT64_MIN);
    UintDigitCountIsLength(INT64_MAX);
    UintDigitCountIsLength(UINT64_MAX);
  }

  /** In numbers. */
  function Room(t: IntType, low: int): nat {
    if t == Int(Signed) then 11
    else if t == Int(Unsigned) then 10
    else if t == Big(Signed) && low >= INT32_MIN then 19
    else 20
  }

  lemma RangedTexts(t: IntType)
    requires t.Int? || t.Big?
    ensures WiderText(TypeLow(t), TypeHigh(t)) == Room(t, INT64_MIN)
    ensures |Text(INT64_MAX)| == 19
  {
    LimitTexts();
  }

  lemma ReserveIs(k: Kind)
    requires IsRandom(k)
    ensures Reserve(k) == Room(RangedType(k), Low(k))
  {
    RangedTexts(RangedType(k));
  }

  function Spare(k: Kind, grouped: bool): nat {
    if grouped && k == IntUpto(Unsigned, UINT32_MAX) then 2 else 1
  }

  lemma FromRoom(k: Kind, grouped: bool)
    requires k.IntFrom? && KindOk(k)
    ensures PlanOf(k, grouped).length == Room(RangedType(k), Low(k))
    ensures PlanOf(k, grouped).width == PlanOf(k, grouped).length + 1
  {
  }

  lemma UptoRoom(k: Kind, grouped: bool)
    requires k.IntUpto? && KindOk(k)
    ensures PlanOf(k, grouped).length == Room(RangedType(k), Low(k))
    ensures PlanOf(k, grouped).width == PlanOf(k, grouped).length + Spare(k, grouped)
  {
  }

  lemma RangeRoom(k: Kind, grouped: bool)
    requires k.IntRange? && KindOk(k)
    ensures PlanOf(k, grouped).length == Room(RangedType(k), Low(k))
    ensures PlanOf(k, grouped).width == PlanOf(k, grouped).length + 1
  {
    assert Distance(k.low, k.high) == k.high - k.low;
  }

  lemma PlanRoom(k: Kind, grouped: bool)
    requires IsRandom(k) && KindOk(k)
    ensures PlanOf(k, grouped).length == Room(RangedType(k), Low(k))
    ensures PlanOf(k, grouped).width == PlanOf(k, grouped).length + Spare(k, grouped)
  {
    match k
    case IntRandom(_) =>
    case IntFrom(_, _) => FromRoom(k, grouped);
    case IntUpto(_, _) => UptoRoom(k, grouped);
    case IntRange(_, _, _) => RangeRoom(k, grouped);
  }

  /** A JOIN adds exactly that much for a random integer, and width_max is one more, or two for a full
      unsigned INT in groups. */
  lemma PlanReserves(k: Kind, grouped: bool)
    requires IsRandom(k) && KindOk(k)
    ensures PlanOf(k, grouped).length == Reserve(k)
    ensures PlanOf(k, grouped).width == Reserve(k) + Spare(k, grouped)
  {
    ReserveIs(k);
    PlanRoom(k, grouped);
  }

  // ---------- type_assign ----------

  /** type_assign_integer_min, type_assign_integer_max and type_assign_u_integer_max. */
  function TypeOf(s: Sign, v: int): IntType {
    if s.Signed? && v < 0 then
      if v < -0x8000 then (if v < -0x80_0000 then (if v < INT32_MIN then Big(s) else Int(s)) else Medium(s))
      else (if v < -0x80 then Small(s) else Tiny(s))
    else if s.Signed? then
      if v > 0x7FFF then (if v > 0x7F_FFFF then (if v > INT32_MAX then Big(s) else Int(s)) else Medium(s))
      else (if v > 0x7F then Small(s) else Tiny(s))
    else
      if v > 0xFFFF then (if v > 0xFF_FFFF then (if v > UINT32_MAX then Big(s) else Int(s)) else Medium(s))
      else (if v > 0xFF then Small(s) else Tiny(s))
  }

  /** The narrowest type that holds the value. */
  lemma TypeIsNarrowest(s: Sign, v: int)
    requires InRange(s, v)
    ensures TypeOf(s, v).sign == s && Holds(TypeOf(s, v), v)
    ensures forall t: IntType :: t.sign == s && Holds(t, v) ==> Bits(TypeOf(s, v)) <= Bits(t)
  {
  }

  /** A column of the numbers from 1 on: every one of them fits. */
  lemma TypeHoldsAllBelow(s: Sign, n: nat, v: nat)
    requires v <= n && InRange(s, n)
    ensures Holds(TypeOf(s, n), v)
  {
  }
}
