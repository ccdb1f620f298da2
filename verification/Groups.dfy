/** How the rows of a column are split into groups. */
module Groups {
  import opened Specs

  /** The rows of the first `k` groups. */
  function RowsBefore(sizes: seq<nat>, k: nat): nat
    requires k <= |sizes|
  {
    if k == 0 then 0 else RowsBefore(sizes, k - 1) + sizes[k - 1]
  }

  function Sum(sizes: seq<nat>): nat {
    RowsBefore(sizes, |sizes|)
  }

  predicate NoneEmpty(sizes: seq<nat>) {
    forall k :: 0 <= k < |sizes| ==> sizes[k] >= 1
  }

  /** Every row in one group, and no group without a row. */
  predicate IsPartition(sizes: seq<nat>, count: nat, rows: nat) {
    |sizes| == count && Sum(sizes) == rows && NoneEmpty(sizes)
  }

  /** The extra rows spread evenly, with the leftovers in front. */
  function Spread(sizes: seq<nat>, extra: nat): (spread: seq<nat>)
    ensures |spread| == |sizes|
  {
    seq(|sizes|, k requires 0 <= k < |sizes| => sizes[k] + extra / |sizes| + if k < extra % |sizes| then 1 else 0)
  }

  function Zeros(count: nat): (zeros: seq<nat>)
    ensures |zeros| == count && forall k :: 0 <= k < count ==> zeros[k] == 0
  {
    seq(count, _ => 0)
  }

  /** groups_linear_slope. */
  function LinearSlope(count: nat, rows: nat): real
    requires count > 0
  {
    (rows as real * 2.0 / count as real - 1.0 - 1.0) / count as real
  }

  /** The point of the line at a group, which starts with 1. */
  function LinePoint(slope: real, k: nat): real {
    1.0 + k as real * slope
  }

  /** The whole part of the line. */
  function LinearBase(count: nat, rows: nat): (base: seq<nat>)
    requires 1 <= count <= rows
    ensures |base| == count
  {
    var slope := LinearSlope(count, rows);
    seq(count, k requires 0 <= k < count => Whole(slope, count, rows, k))
  }

  function Whole(slope: real, count: nat, rows: nat, k: nat): (n: nat)
    requires 1 <= count <= rows && slope == LinearSlope(count, rows)
    ensures 1 <= n && n as real <= LinePoint(slope, k) < n as real + 1.0
  {
    SlopeRises(count, rows, k);
    LinePoint(slope, k).Floor
  }

  lemma SlopeIs(count: nat, rows: nat)
    requires 1 <= count
    ensures LinearSlope(count, rows) * (count as real * count as real) == 2.0 * (rows as real - count as real)
  {
    var n := count as real;
    var max := rows as real * 2.0 / n;
    assert max * n == rows as real * 2.0;
    var slope := LinearSlope(count, rows);
    assert slope * n == max - 2.0;
    calc {
      slope * (n * n);
      (slope * n) * n;
      (max - 2.0) * n;
      max * n - 2.0 * n;
    }
  }

  lemma SlopeRises(count: nat, rows: nat, k: nat)
    requires 1 <= count <= rows
    ensures LinearSlope(count, rows) >= 0.0 && LinePoint(LinearSlope(count, rows), k) >= 1.0
  {
    var n, max := count as real, rows as real * 2.0 / count as real;
    assert max * n == rows as real * 2.0;
    assert max >= 2.0;
    assert k as real * LinearSlope(count, rows) >= 0.0;
  }

  function GroupSizes(part: Part, count: nat, rows: nat): seq<nat>
    requires 1 <= count <= rows
  {
    if part.Even? then Spread(Zeros(count), rows)
    else
      LinearLeavesRows(count, rows);
      Spread(LinearBase(count, rows), rows - Sum(LinearBase(count, rows)))
  }

  // ---------- both partition the rows ----------

  lemma {:induction false} SpreadRows(sizes: seq<nat>, extra: nat, k: nat)
    requires k <= |sizes| && sizes != []
    ensures RowsBefore(Spread(sizes, extra), k) ==
            RowsBefore(sizes, k) + k * (extra / |sizes|) + if k < extra % |sizes| then k else extra % |sizes|
  {
    if k > 0 {
      SpreadRows(sizes, extra, k - 1);
      assert k * (extra / |sizes|) == (k - 1) * (extra / |sizes|) + extra / |sizes|;
    }
  }

  lemma SpreadSum(sizes: seq<nat>, extra: nat)
    requires sizes != []
    ensures Sum(Spread(sizes, extra)) == Sum(sizes) + extra
  {
    SpreadRows(sizes, extra, |sizes|);
    assert extra == |sizes| * (extra / |sizes|) + extra % |sizes|;
  }

  lemma {:induction false} ZeroRows(count: nat, k: nat)
    requires k <= count
    ensures RowsBefore(Zeros(count), k) == 0
  {
    if k > 0 {
      ZeroRows(count, k - 1);
    }
  }

  /** No more than the area under the line, from 0 to `x`. */
  predicate UnderLine(slope: real, area: real, x: real) {
    2.0 * area <= 2.0 * x + slope * (x * x)
  }

  lemma LineStart(slope: real)
    ensures UnderLine(slope, 0.0, 0.0)
  {
  }

  lemma LineStep(slope: real, l: real, area: real, whole: real)
    requires slope >= 0.0 && UnderLine(slope, area, l) && whole <= 1.0 + l * slope
    ensures UnderLine(slope, area + whole, l + 1.0)
  {
    assert slope * ((l + 1.0) * (l + 1.0)) == slope * (l * l) + 2.0 * (l * slope) + slope;
  }

  lemma BaseIsBelow(count: nat, rows: nat, slope: real, k: nat)
    requires 1 <= count <= rows && slope == LinearSlope(count, rows) && k < count
    ensures slope >= 0.0 && LinearBase(count, rows)[k] as real <= 1.0 + k as real * slope
  {
    SlopeRises(count, rows, k);
    assert LinearBase(count, rows)[k] == Whole(slope, count, rows, k);
  }

  lemma {:induction false} LineRows(count: nat, rows: nat, slope: real, k: nat)
    requires 1 <= count <= rows && slope == LinearSlope(count, rows) && k <= count
    ensures UnderLine(slope, RowsBefore(LinearBase(count, rows), k) as real, k as real)
  {
    if k == 0 {
      LineStart(slope);
    } else {
      var base := LinearBase(count, rows);
      LineRows(count, rows, slope, k - 1);
      BaseIsBelow(count, rows, slope, k - 1);
      LineStep(slope, (k - 1) as real, RowsBefore(base, k - 1) as real, base[k - 1] as real);
      assert (k - 1) as real + 1.0 == k as real;
    }
  }

  lemma LinearLeavesRows(count: nat, rows: nat)
    requires 1 <= count <= rows
    ensures Sum(LinearBase(count, rows)) <= rows
  {
    LineRows(count, rows, LinearSlope(count, rows), count);
    SlopeIs(count, rows);
  }

  lemma EvenSizesPartition(count: nat, rows: nat)
    requires 1 <= count <= rows
    ensures IsPartition(GroupSizes(Even, count, rows), count, rows)
  {
    ZeroRows(count, count);
    SpreadSum(Zeros(count), rows);
    assert rows / count >= 1;
  }

  lemma SpreadAdds(sizes: seq<nat>, extra: nat, k: nat)
    requires k < |sizes|
    ensures Spread(sizes, extra)[k] >= sizes[k]
  {
    assert extra / |sizes| >= 0;
  }

  lemma SpreadKeepsRows(sizes: seq<nat>, extra: nat)
    requires NoneEmpty(sizes)
    ensures NoneEmpty(Spread(sizes, extra))
  {
    forall k | 0 <= k < |sizes| ensures Spread(sizes, extra)[k] >= 1 {
      SpreadAdds(sizes, extra, k);
    }
  }

  lemma BaseKeepsRows(count: nat, rows: nat)
    requires 1 <= count <= rows
    ensures NoneEmpty(LinearBase(count, rows))
  {
  }

  lemma LinearSizesPartition(count: nat, rows: nat)
    requires 1 <= count <= rows
    ensures IsPartition(GroupSizes(Linear, count, rows), count, rows)
  {
    LinearLeavesRows(count, rows);
    var base := LinearBase(count, rows);
    var undershoot: nat := rows - Sum(base);
    SpreadSum(base, undershoot);
    BaseKeepsRows(count, rows);
    SpreadKeepsRows(base, undershoot);
  }

  /** As many groups as asked for, each with a row or more, and all rows in one. */
  lemma SizesPartition(part: Part, count: nat, rows: nat)
    requires 1 <= count <= rows
    ensures IsPartition(GroupSizes(part, count, rows), count, rows)
  {
    if part.Even? {
      EvenSizesPartition(count, rows);
    } else {
      LinearSizesPartition(count, rows);
    }
  }

  /** Even groups never grow, and differ by a row at most. */
  lemma EvenShape(count: nat, rows: nat, i: nat, j: nat)
    requires 1 <= count <= rows && i <= j < count
    ensures var sizes := GroupSizes(Even, count, rows); sizes[j] <= sizes[i] <= sizes[j] + 1
  {
  }

  lemma LineGrows(slope: real, count: nat, rows: nat, i: nat, j: nat)
    requires 1 <= count <= rows && slope == LinearSlope(count, rows) && i <= j
    ensures Whole(slope, count, rows, i) <= Whole(slope, count, rows, j)
  {
    SlopeRises(count, rows, 0);
    assert slope * (j - i) as real >= 0.0;
    assert LinePoint(slope, i) <= LinePoint(slope, j);
  }

  /** Linear groups never shrink by more than the leftover row in front. */
  lemma LinearShape(count: nat, rows: nat, i: nat, j: nat)
    requires 1 <= count <= rows && i <= j < count
    ensures var sizes := GroupSizes(Linear, count, rows); sizes[i] <= sizes[j] + 1
  {
    LineGrows(LinearSlope(count, rows), count, rows, i, j);
  }

  /** So of two linear groups for 3 rows the first is the larger one. */
  lemma LinearShrinksWitness()
    ensures GroupSizes(Linear, 2, 3) == [2, 1]
  {
    var base := LinearBase(2, 3);
    assert LinearSlope(2, 3) == 0.5;
    assert base[0] == 1 && base[1] == 1;
    assert Sum(base) == RowsBefore(base, 1) + 1 == 2;
    assert Spread(base, 1) == [2, 1];
  }

  // ---------- in place ----------

  /** partition_groups_even. */
  method PartitionEven(group: array<nat>, rows: nat)
    requires 1 <= group.Length <= rows
    modifies group
    ensures group[..] == GroupSizes(Even, group.Length, rows)
  {
    var div, rem := rows / group.Length, rows % group.Length;
    var k := 0;
    while k < rem
      invariant k <= rem < group.Length
      invariant forall i :: 0 <= i < k ==> group[i] == div + 1
    {
      group[k] := div + 1;
      k := k + 1;
    }
    while k < group.Length
      invariant rem <= k <= group.Length
      invariant forall i :: 0 <= i < k ==> group[i] == if i < rem then div + 1 else div
    {
      group[k] := div;
      k := k + 1;
    }
  }

  /** partition_groups_linear. */
  method PartitionLinear(group: array<nat>, rows: nat)
    requires 1 <= group.Length <= rows
    modifies group
    ensures group[..] == GroupSizes(Linear, group.Length, rows)
  {
    var sum := DrawLine(group, rows);
    LinearLeavesRows(group.Length, rows);
    SpreadOver(group, rows - sum);
  }

  /** Spreads the undershoot evenly, with the leftovers in front. */
  method SpreadOver(group: array<nat>, undershoot: nat)
    requires group.Length >= 1
    modifies group
    ensures group[..] == Spread(old(group[..]), undershoot)
  {
    AddRows(group, undershoot / group.Length, undershoot % group.Length);
  }

  /** So many rows to every group, and one more to each of the first. */
  method AddRows(group: array<nat>, div: nat, rem: nat)
    requires rem < group.Length
    modifies group
    ensures forall i :: 0 <= i < group.Length ==> group[i] == old(group[i]) + div + if i < rem then 1 else 0
  {
    var k := 0;
    while k < rem
      invariant k <= rem
      invariant forall i :: 0 <= i < k ==> group[i] == old(group[i]) + div + 1
      invariant forall i :: k <= i < group.Length ==> group[i] == old(group[i])
    {
      group[k] := group[k] + div + 1;
      k := k + 1;
    }
    if div > 0 {
      while k < group.Length
        invariant rem <= k <= group.Length
        invariant forall i :: 0 <= i < rem ==> group[i] == old(group[i]) + div + 1
        invariant forall i :: rem <= i < k ==> group[i] == old(group[i]) + div
        invariant forall i :: k <= i < group.Length ==> group[i] == old(group[i])
      {
        group[k] := group[k] + div;
        k := k + 1;
      }
    }
  }

  method DrawLine(group: array<nat>, rows: nat) returns (sum: nat)
    requires 1 <= group.Length <= rows
    modifies group
    ensures group[..] == LinearBase(group.Length, rows) && sum == Sum(LinearBase(group.Length, rows))
  {
    var n := group.Length;
    var slope := LinearSlope(n, rows);
    ghost var base := LinearBase(n, rows);
    var acc := 1.0;
    assert LinePoint(slope, 0) == 1.0;
    group[0], sum := 1, 1;
    assert RowsBefore(base, 0) == 0;
    var k := 1;
    while k < n
      invariant 1 <= k <= n
      invariant acc == LinePoint(slope, k - 1)
      invariant forall i :: 0 <= i < k ==> group[i] == base[i]
      invariant sum == RowsBefore(base, k)
    {
      assert k as real == (k - 1) as real + 1.0;
      acc := acc + slope;
      assert acc == LinePoint(slope, k);
      SlopeRises(n, rows, k);
      group[k] := acc.Floor;
      sum := sum + group[k];
      k := k + 1;
    }
  }

  // ---------- row blocks ----------

  function BlocksOf(first: nat, whole: nat, block: nat): (sizes: seq<nat>)
    requires block >= 1
    ensures NoneEmpty(sizes)
  {
    (if first > 0 then [first] else []) + seq(whole, _ => block)
  }

  /** The row blocks of a table: all of one size, but for a smaller one in front. */
  function Blocks(rows: nat, block: nat): (sizes: seq<nat>)
    requires block >= 1
    ensures NoneEmpty(sizes)
  {
    BlocksOf(rows % block, rows / block, block)
  }

  lemma {:induction false} BlocksReach(first: nat, whole: nat, block: nat, k: nat)
    requires block >= 1 && k <= |BlocksOf(first, whole, block)|
    ensures RowsBefore(BlocksOf(first, whole, block), k) ==
            if first == 0 then k * block else if k == 0 then 0 else first + (k - 1) * block
  {
    if k > 0 {
      BlocksReach(first, whole, block, k - 1);
      assert k * block == (k - 1) * block + block;
      assert k > 1 ==> (k - 1) * block == (k - 2) * block + block;
    }
  }

  lemma BlocksPartition(rows: nat, block: nat)
    requires block >= 1
    ensures IsPartition(Blocks(rows, block), |Blocks(rows, block)|, rows)
  {
    var first, whole := rows % block, rows / block;
    BlocksReach(first, whole, block, |BlocksOf(first, whole, block)|);
    assert whole * block + first == rows;
  }

  /** The rows of a row block, by the largest row count of the run: a quarter, one for each of the four
      workers. */
  function BlockRows(rowMax: nat): (block: nat)
    ensures rowMax >= 1 ==> 1 <= block <= rowMax
  {
    if rowMax < 4 then rowMax else rowMax / 4
  }

  /** There is a second row block. */
  lemma MoreBlocksIff(rows: nat, block: nat)
    requires block >= 1 && rows >= 1
    ensures 1 <= |Blocks(rows, block)| && (|Blocks(rows, block)| > 1 <==> block < rows)
  {
    BlocksPartition(rows, block);
    var sizes := Blocks(rows, block);
    if |sizes| > 1 {
      assert RowsBefore(sizes, 1) == sizes[0] && RowsBefore(sizes, 2) == sizes[0] + sizes[1];
      RowsRise(sizes, 2, |sizes|);
      BlocksAreFull(rows, block, 1);
    } else if |sizes| == 1 {
      assert Sum(sizes) == sizes[0];
    }
  }

  /** Every row block is full but for the first, which may be smaller. */
  lemma BlocksAreFull(rows: nat, block: nat, b: nat)
    requires block >= 1 && b < |Blocks(rows, block)|
    ensures var sizes := Blocks(rows, block); sizes[b] <= block && (b > 0 ==> sizes[b] == block)
  {
  }

  // ---------- which group a row is in ----------

  /** The row lies behind the first `g` groups, and not behind the next. */
  predicate InGroup(sizes: seq<nat>, g: nat, row: nat) {
    g < |sizes| && RowsBefore(sizes, g) <= row < RowsBefore(sizes, g + 1)
  }

  function LastStarted(sizes: seq<nat>, k: nat, row: nat): nat
    requires k <= |sizes|
  {
    if k <= 1 || RowsBefore(sizes, k - 1) <= row then (if k == 0 then 0 else k - 1) else LastStarted(sizes, k - 1, row)
  }

  function GroupOf(sizes: seq<nat>, row: nat): nat {
    LastStarted(sizes, |sizes|, row)
  }

  lemma {:induction false} LastStartedHolds(sizes: seq<nat>, k: nat, row: nat)
    requires k <= |sizes| && row < RowsBefore(sizes, k)
    ensures InGroup(sizes, LastStarted(sizes, k, row), row)
  {
    if k > 1 && row < RowsBefore(sizes, k - 1) {
      LastStartedHolds(sizes, k - 1, row);
    }
  }

  lemma {:induction false} RowsRise(sizes: seq<nat>, i: nat, j: nat)
    requires i <= j <= |sizes|
    ensures RowsBefore(sizes, i) <= RowsBefore(sizes, j)
    decreases j
  {
    if i < j {
      RowsRise(sizes, i, j - 1);
    }
  }

  /** Every row is in one group and no other. */
  lemma GroupOfIff(sizes: seq<nat>, g: nat, row: nat)
    requires row < Sum(sizes)
    ensures InGroup(sizes, g, row) <==> g == GroupOf(sizes, row)
  {
    var h := GroupOf(sizes, row);
    LastStartedHolds(sizes, |sizes|, row);
    if InGroup(sizes, g, row) && g < h {
      RowsRise(sizes, g + 1, h);
    } else if InGroup(sizes, g, row) && h < g {
      RowsRise(sizes, h + 1, g);
    }
  }

  lemma {:induction false} RowsAtLeast(sizes: seq<nat>, k: nat)
    requires NoneEmpty(sizes) && k <= |sizes|
    ensures RowsBefore(sizes, k) >= k
  {
    if k > 0 {
      RowsAtLeast(sizes, k - 1);
    }
  }

  lemma {:induction false} LastStartedIsLow(sizes: seq<nat>, k: nat, row: nat)
    requires NoneEmpty(sizes) && k <= |sizes|
    ensures LastStarted(sizes, k, row) <= row
  {
    if k > 1 {
      RowsAtLeast(sizes, k - 1);
      LastStartedIsLow(sizes, k - 1, row);
    }
  }

  /** The first row of a group. */
  lemma FirstOfGroup(sizes: seq<nat>, g: nat)
    requires g < |sizes| && sizes[g] >= 1
    ensures RowsBefore(sizes, g) < Sum(sizes) && GroupOf(sizes, RowsBefore(sizes, g)) == g
  {
    RowsRise(sizes, g + 1, |sizes|);
    GroupOfIff(sizes, g, RowsBefore(sizes, g));
  }

  /** Groups follow one another. */
  lemma GroupsAreOrdered(sizes: seq<nat>, i: nat, j: nat)
    requires i <= j < Sum(sizes)
    ensures GroupOf(sizes, i) <= GroupOf(sizes, j) < |sizes|
  {
    GroupOfIff(sizes, GroupOf(sizes, i), i);
    GroupOfIff(sizes, GroupOf(sizes, j), j);
    if GroupOf(sizes, j) < GroupOf(sizes, i) {
      RowsRise(sizes, GroupOf(sizes, j) + 1, GroupOf(sizes, i));
    }
  }

  /** The next row is in the same group, or is the first of the next one. */
  lemma NextInGroup(sizes: seq<nat>, row: nat)
    requires row + 1 < Sum(sizes) && NoneEmpty(sizes)
    ensures GroupOf(sizes, row + 1) == GroupOf(sizes, row) || GroupOf(sizes, row + 1) == GroupOf(sizes, row) + 1
    ensures GroupOf(sizes, row + 1) != GroupOf(sizes, row) <==> exists g: nat :: g < |sizes| && row + 1 == RowsBefore(sizes, g)
  {
    var g, h := GroupOf(sizes, row), GroupOf(sizes, row + 1);
    GroupOfIff(sizes, g, row);
    GroupOfIff(sizes, h, row + 1);
    GroupsAreOrdered(sizes, row, row + 1);
    if g < h {
      RowsRise(sizes, g + 1, h);
      assert row + 1 == RowsBefore(sizes, h);
      if g + 1 < h {
        RowsRise(sizes, g + 2, h);
      }
    }
    if first: nat :| first < |sizes| && row + 1 == RowsBefore(sizes, first) {
      FirstOfGroup(sizes, first);
      if first <= g {
        RowsRise(sizes, first, g);
      }
    }
  }
}
