/** Decimal numerals: the bounded integer parser, its value, canonical text and widths. */
module Numbers {
  import opened Octets

  const UINT32_MAX: nat := 0xFFFF_FFFF
  const UINT64_MAX: nat := 0xFFFF_FFFF_FFFF_FFFF
  const INT32_MIN: int := -0x8000_0000
  const INT32_MAX: int := 0x7FFF_FFFF
  const INT64_MIN: int := -0x8000_0000_0000_0000
  const INT64_MAX: int := 0x7FFF_FFFF_FFFF_FFFF

  const UPTO_MAX: nat := 99999999
  const HASH_LENGTH_MAX: nat := 255

  function Pow10(n: nat): (p: nat)
    ensures p >= 1
  {
    if n == 0 then 1 else 10 * Pow10(n - 1)
  }

  predicate IsDigit(c: Octet) {
    '0' <= c <= '9'
  }

  function DigitValue(c: Octet): (d: nat)
    requires IsDigit(c)
    ensures d <= 9
  {
    c as int - '0' as int
  }

  predicate AllDigits(s: Arg) {
    forall c <- s :: IsDigit(c)
  }

  /** Positional value, most significant digit first. */
  function Value(s: Arg): nat
    requires AllDigits(s)
  {
    if s == [] then 0 else DigitValue(s[0]) * Pow10(|s| - 1) + Value(s[1..])
  }

  function Digit(d: nat): (c: Octet)
    requires d <= 9
    ensures IsDigit(c) && DigitValue(c) == d
  {
    (d + '0' as int) as char
  }

  /** Canonical decimal text. */
  function Decimal(n: nat): (s: Arg)
    ensures s != [] && AllDigits(s)
    ensures n > 0 ==> s[0] != '0'
  {
    if n < 10 then [Digit(n)] else Decimal(n / 10) + [Digit(n % 10)]
  }

  /** What put_int writes for `v`. */
  function Text(v: int): Arg {
    if v < 0 then ['-'] + Decimal(-v) else Decimal(v)
  }

  predicate IsNumeral(s: Arg, max: nat) {
    s != [] && AllDigits(s) && Value(s) <= max
  }

  function ParseUint(a: Arg): Option<nat> {
    if IsNumeral(a, UINT64_MAX) then Some(Value(a)) else None
  }

  function ParseInt(a: Arg): Option<int> {
    if a != [] && a[0] == '-' then
      if IsNumeral(a[1..], -INT64_MIN) then Some(0 - Value(a[1..])) else None
    else if IsNumeral(a, INT64_MAX) then Some(Value(a))
    else None
  }

  function Bounded(n: Option<nat>, high: nat): Option<nat> {
    if n.Some? && 1 <= n.value <= high then n else None
  }

  function RowCount(parsed: Option<nat>): Option<nat> {
    Bounded(parsed, UPTO_MAX)
  }

  function HashLength(parsed: Option<nat>): Option<nat> {
    Bounded(parsed, HASH_LENGTH_MAX)
  }

  function GrpCount(parsed: Option<nat>, rows: nat): Option<nat> {
    Bounded(parsed, rows)
  }

  /** Row counts are the numerals from 1 to 99999999, hash lengths those from 1 to 255, and group counts
      those from 1 to the row count. */
  lemma CountsAreLimited(a: Arg, rows: nat)
    requires rows <= 99999999
    ensures RowCount(ParseUint(a)).Some? <==> IsNumeral(a, 99999999) && Value(a) >= 1
    ensures HashLength(ParseUint(a)).Some? <==> IsNumeral(a, 255) && Value(a) >= 1
    ensures GrpCount(ParseUint(a), rows).Some? <==> IsNumeral(a, rows) && Value(a) >= 1
  {
  }

  /** A plain char, signed or not as the implementation has it. */
  function CharAt(a: Arg, i: nat, signed: bool): (c: int)
    requires i <= |a|
    ensures OctetAt(a, i) < 0x80 ==> c == OctetAt(a, i)
  {
    if signed && OctetAt(a, i) >= 0x80 then OctetAt(a, i) - 0x100 else OctetAt(a, i)
  }

  /** Lexicographic order as string_compare reports it: the difference of the first chars that
      differ, after their conversion to unsigned int and back. */
  function Compare(s: Arg, t: Arg, signed: bool): int {
    if s == [] && t == [] then 0
    else if OctetAt(s, 0) != OctetAt(t, 0) then CharAt(s, 0, signed) - CharAt(t, 0, signed)
    else Compare(s[1..], t[1..], signed)
  }

  lemma MulMonotone(x: nat, y: nat, p: nat)
    requires x <= y
    ensures x * p <= y * p
  {
  }

  lemma Pow10Monotone(m: nat, n: nat)
    requires m <= n
    ensures Pow10(m) <= Pow10(n)
  {
  }

  lemma {:induction false} ValueBound(s: Arg)
    requires AllDigits(s)
    ensures Value(s) < Pow10(|s|)
    ensures s != [] && s[0] != '0' ==> Pow10(|s| - 1) <= Value(s)
  {
    if s != [] {
      ValueBound(s[1..]);
      MulMonotone(DigitValue(s[0]), 9, Pow10(|s| - 1));
      if s[0] != '0' {
        MulMonotone(1, DigitValue(s[0]), Pow10(|s| - 1));
      }
    }
  }

  lemma TimesTen(d: nat, p: nat, v: nat)
    ensures d * (10 * p) + 10 * v == 10 * (d * p + v)
  {
  }

  lemma {:induction false} ValueSnoc(s: Arg, c: Octet)
    requires AllDigits(s) && IsDigit(c)
    ensures AllDigits(s + [c]) && Value(s + [c]) == 10 * Value(s) + DigitValue(c)
  {
    if s == [] {
      assert s + [c] == [c];
      assert [c][1..] == [];
    } else {
      ValueSnoc(s[1..], c);
      assert (s + [c])[1..] == s[1..] + [c];
      TimesTen(DigitValue(s[0]), Pow10(|s| - 1), Value(s[1..]));
    }
  }

  lemma {:induction false} ValueDecimal(n: nat)
    ensures Value(Decimal(n)) == n
  {
    if n < 10 {
      assert Decimal(n)[1..] == [];
    } else {
      ValueDecimal(n / 10);
      ValueSnoc(Decimal(n / 10), Digit(n % 10));
    }
  }

  lemma DecimalSnoc(n: nat, d: nat)
    requires n > 0 && d <= 9
    ensures Decimal(10 * n + d) == Decimal(n) + [Digit(d)]
  {
    assert (10 * n + d) / 10 == n && (10 * n + d) % 10 == d;
  }

  /** A numeral without leading zeros is the canonical one. */
  lemma {:induction false} DecimalValue(s: Arg)
    requires AllDigits(s) && s != [] && s[0] != '0'
    ensures Decimal(Value(s)) == s
  {
    var last := |s| - 1;
    var init, d := s[..last], DigitValue(s[last]);
    ValueSnoc(init, s[last]);
    assert s == init + [s[last]];
    if last > 0 {
      DecimalValue(init);
      ValueBound(init);
      DecimalSnoc(Value(init), d);
    } else {
      assert init == [] && s == [Digit(d)];
    }
  }

  lemma LeadingDigitDecides(d: nat, e: nat, v: nat, w: nat, p: nat)
    requires v < p && w < p && d < e
    ensures d * p + v < e * p + w
  {
    MulMonotone(d + 1, e, p);
  }

  /** Numerals of equal length compare as the numbers they denote. */
  lemma {:induction false} CompareIsNumeric(s: Arg, t: Arg, signed: bool)
    requires |s| == |t| && AllDigits(s) && AllDigits(t)
    ensures Compare(s, t, signed) > 0 <==> Value(s) > Value(t)
  {
    if s != [] {
      ValueBound(s[1..]);
      ValueBound(t[1..]);
      var d, e := DigitValue(s[0]), DigitValue(t[0]);
      var v, w, p := Value(s[1..]), Value(t[1..]), Pow10(|s| - 1);
      if d < e {
        LeadingDigitDecides(d, e, v, w, p);
      } else if e < d {
        LeadingDigitDecides(e, d, w, v, p);
      } else {
        CompareIsNumeric(s[1..], t[1..], signed);
      }
    }
  }

  lemma DecimalLength(n: nat, digits: nat)
    requires 1 <= digits && n < Pow10(digits)
    requires digits > 1 ==> Pow10(digits - 1) <= n
    ensures |Decimal(n)| == digits
  {
    var s := Decimal(n);
    ValueDecimal(n);
    ValueBound(s);
    if |s| < digits {
      Pow10Monotone(|s|, digits - 1);
    } else if |s| > digits {
      Pow10Monotone(digits, |s| - 1);
    }
  }

  lemma {:induction false} PowerTable()
    ensures Pow10(1) == 10 && Pow10(2) == 100 && Pow10(3) == 1000 && Pow10(4) == 1_0000
    ensures Pow10(5) == 10_0000 && Pow10(6) == 100_0000 && Pow10(7) == 1000_0000
    ensures Pow10(8) == 1_0000_0000 && Pow10(9) == 10_0000_0000 && Pow10(10) == 100_0000_0000
    ensures Pow10(11) == 1000_0000_0000 && Pow10(12) == 1_0000_0000_0000
    ensures Pow10(13) == 10_0000_0000_0000 && Pow10(14) == 100_0000_0000_0000
    ensures Pow10(15) == 1000_0000_0000_0000 && Pow10(16) == 1_0000_0000_0000_0000
    ensures Pow10(17) == 10_0000_0000_0000_0000 && Pow10(18) == 100_0000_0000_0000_0000
    ensures Pow10(19) == 1000_0000_0000_0000_0000 && Pow10(20) == 1_0000_0000_0000_0000_0000
  {
    assert Pow10(5) == 10_0000;
    assert Pow10(10) == 100_0000_0000;
    assert Pow10(15) == 1000_0000_0000_0000;
  }

  /** uint_digit_count: a decision tree over powers of ten. */
  function UintDigitCount(n: nat): nat {
    if n < 100_0000_0000 then
      if n < 10_0000 then
        if n < 1000 then
          if n < 100 then (if n < 10 then 1 else 2) else 3
        else (if n < 1_0000 then 4 else 5)
      else
        if n < 1_0000_0000 then
          if n < 1000_0000 then (if n < 100_0000 then 6 else 7) else 8
        else (if n < 10_0000_0000 then 9 else 10)
    else
      if n < 1000_0000_0000_0000 then
        if n < 1_0000_0000_0000 then
          (if n < 1000_0000_0000 then 11 else 12)
        else if n < 10_0000_0000_0000 then 13
        else (if n < 100_0000_0000_0000 then 14 else 15)
      else
        if n < 10_0000_0000_0000_0000 then
          (if n < 1_0000_0000_0000_0000 then 16 else 17)
        else if n < 100_0000_0000_0000_0000 then 18
        else (if n < 1000_0000_0000_0000_0000 then 19 else 20)
  }

  lemma UintDigitCountIsLength(n: nat)
    requires n <= UINT64_MAX
    ensures UintDigitCount(n) == |Decimal(n)|
  {
    PowerTable();
    DecimalLength(n, UintDigitCount(n));
  }

  lemma {:induction false} DecimalMonotone(m: nat, n: nat)
    requires m <= n
    ensures |Decimal(m)| <= |Decimal(n)|
  {
    if m >= 10 {
      DecimalMonotone(m / 10, n / 10);
    }
  }

  lemma ParseUintDecimal(n: nat)
    requires n <= UINT64_MAX
    ensures ParseUint(Decimal(n)) == Some(n)
  {
    ValueDecimal(n);
  }

  lemma ParseIntText(v: int)
    requires INT64_MIN <= v <= INT64_MAX
    ensures ParseInt(Text(v)) == Some(v)
  {
    if v < 0 {
      ValueDecimal(-v);
      assert Text(v)[1..] == Decimal(-v);
    } else {
      ValueDecimal(v);
    }
  }

  /** string_compare. */
  method StringCompare(s: Arg, t: Arg, signed: bool) returns (order: int)
    ensures order == Compare(s, t, signed)
  {
    var i := 0;
    assert s[0..] == s && t[0..] == t;
    while true
      invariant i <= |s| && i <= |t| && Compare(s, t, signed) == Compare(s[i..], t[i..], signed)
      decreases |s| - i
    {
      var token1, token2 := CharAt(s, i, signed), CharAt(t, i, signed);
      if token1 != token2 {
        order := token1 - token2;
        return;
      }
      if token1 == 0 {
        return 0;
      }
      assert s[i..][1..] == s[i + 1..] && t[i..][1..] == t[i + 1..];
      i := i + 1;
    }
  }

  /** Where the significant digits start; None once the whole numeral was zeros. */
  method SkipZeros(a: Arg, start: nat) returns (at: Option<nat>)
    requires start <= |a|
    ensures at.None? ==> a[start..] != [] && AllDigits(a[start..]) && Value(a[start..]) == 0
    ensures at.Some? ==> start <= at.value <= |a| && OctetAt(a, at.value) != '0' as int
    ensures at.Some? && at.value == |a| ==> a[start..] == []
    ensures at.Some? && at.value < |a| ==> (AllDigits(a[start..]) <==> AllDigits(a[at.value..]))
    ensures at.Some? && AllDigits(a[start..]) ==> Value(a[start..]) == Value(a[at.value..])
  {
    var i: nat := start;
    while OctetAt(a, i) == '0' as int
      invariant start <= i <= |a|
      invariant i == |a| ==> i == start
      invariant AllDigits(a[start..]) <==> AllDigits(a[i..])
      invariant AllDigits(a[start..]) ==> Value(a[start..]) == Value(a[i..])
      decreases |a| - i
    {
      assert a[i..] == [a[i]] + a[i + 1..];
      i := i + 1;
      if OctetAt(a, i) == 0 {
        return None;
      }
    }
    return Some(i);
  }

  /** Counts the digits from `start`, and compares the numeral with the text of the maximum as
      soon as it is as long; None when it is no numeral or too large. */
  method CountDigits(a: Arg, start: nat, max: nat) returns (count: Option<nat>)
    requires start < |a| && a[start] != '0' && IsDigit(a[start]) && max >= 10
    ensures count == if IsNumeral(a[start..], max) then Some(|a| - start) else None
  {
    var maxString := Decimal(max);
    ValueDecimal(max);
    ValueBound(maxString);
    var i, digits := start, 1;
    while true
      invariant start <= i < |a| && digits == i - start + 1 < |maxString|
      invariant forall k :: start <= k <= i ==> IsDigit(a[k])
      decreases |a| - i
    {
      i := i + 1;
      if OctetAt(a, i) == 0 {
        ValueBound(a[start..]);
        Pow10Monotone(digits, |maxString| - 1);
        return Some(digits);
      }
      if !IsDigit(a[i]) {
        assert a[start..][i - start] == a[i];
        return None;
      }
      digits := digits + 1;
      if digits == |maxString| {
        var signed: bool := *;  // the implementation decides
        var order := StringCompare(a[start..], maxString, signed);
        i := i + 1;
        if OctetAt(a, i) != 0 {
          TooLong(a[start..], max);
          return None;
        }
        CompareIsNumeric(a[start..], maxString, signed);
        return if order > 0 then None else Some(digits);
      }
    }
  }

  /** Sums the digits from the last one back with a growing power of ten. */
  method SumDigits(a: Arg, count: nat) returns (n: nat)
    requires 1 <= count <= |a| && AllDigits(a[|a| - count..])
    ensures n == Value(a[|a| - count..])
  {
    var i := |a| - 1;
    assert a[i] == a[|a| - count..][count - 1];
    n := DigitValue(a[i]);
    assert a[i..] == [a[i]];
    var power := 1;
    while power < count
      invariant 1 <= power <= count && i == |a| - power
      invariant AllDigits(a[i..]) && n == Value(a[i..])
    {
      i := i - 1;
      assert a[i] == a[|a| - count..][i - (|a| - count)];
      assert a[i..] == [a[i]] + a[i + 1..];
      n := n + DigitValue(a[i]) * Pow10(power);
      power := power + 1;
    }
  }

  /** do_parse_uint on the octets from `start`. */
  method DoParseUint(a: Arg, start: nat, max: nat) returns (n: Option<nat>)
    requires start <= |a| && max >= 10
    ensures n == if IsNumeral(a[start..], max) then Some(Value(a[start..])) else None
  {
    var at := SkipZeros(a, start);
    if at.None? {
      return Some(0);
    }
    var first := at.value;
    if first == |a| || !IsDigit(a[first]) {
      assert first < |a| ==> a[first..][0] == a[first];
      return None;
    }
    var count := CountDigits(a, first, max);
    if count.None? {
      return None;
    }
    assert |a| - count.value == first;
    var sum := SumDigits(a, count.value);
    return Some(sum);
  }

  lemma TooLong(s: Arg, max: nat)
    requires |s| > |Decimal(max)| && s[0] != '0'
    ensures AllDigits(s) ==> Value(s) > max
  {
    if AllDigits(s) {
      ValueDecimal(max);
      ValueBound(Decimal(max));
      ValueBound(s);
      Pow10Monotone(|Decimal(max)|, |s| - 1);
    }
  }

  method ParseUnsigned(a: Arg) returns (n: Option<nat>)
    ensures n == ParseUint(a)
  {
    assert a[0..] == a;
    n := DoParseUint(a, 0, UINT64_MAX);
  }

  method ParseSigned(a: Arg) returns (n: Option<int>)
    ensures n == ParseInt(a)
  {
    if OctetAt(a, 0) == '-' as int {
      var m := DoParseUint(a, 1, -INT64_MIN);
      if m.None? {
        return None;
      }
      var magnitude: int := m.value;
      return Some(-magnitude);
    } else {
      assert a[0..] == a;
      var m := DoParseUint(a, 0, INT64_MAX);
      n := if m.None? then None else Some(m.value);
    }
  }

  /** Leading zeros from `from` on may be skipped. */
  lemma ZeroSkipped(text: Arg, from: nat)
    requires from < |text| && AllDigits(text[from..]) && text[from] == '0'
    ensures AllDigits(text[from + 1..]) && Value(text[from + 1..]) == Value(text[from..])
  {
    assert text[from..] == [text[from]] + text[from + 1..];
  }

  /** What is left then is canonical. */
  lemma RestIsDecimal(text: Arg, from: nat)
    requires from < |text| && AllDigits(text[from..]) && text[from] != '0'
    ensures text[from..] == Decimal(Value(text[from..]))
  {
    assert text[from..][0] == text[from];
    DecimalValue(text[from..]);
  }

  /** Skips the zeros of a numeral that is not zero. */
  method SkipLeadingZeros(arg: array<Octet>, start: nat) returns (from: nat)
    requires start <= arg.Length && AllDigits(arg[start..]) && Value(arg[start..]) > 0
    ensures start <= from < arg.Length && arg[from..] == Decimal(Value(arg[start..]))
  {
    ghost var text := arg[..];
    assert text[start..] == arg[start..];
    from := start;
    while from < arg.Length && arg[from] == '0'
      invariant start <= from <= arg.Length && AllDigits(text[from..]) && Value(text[from..]) == Value(text[start..])
    {
      ZeroSkipped(text, from);
      from := from + 1;
    }
    assert text[from..] != [];
    RestIsDecimal(text, from);
    assert text[from..] == arg[from..];
  }

  /** parse_integer_fixed and parse_u_integer_fixed keep the text of an accepted FIXED_INT in place:
      leading zeros are skipped and, of a negative number, the octet before the first significant
      digit is overwritten with the sign.  What is left from the returned offset on is the canonical
      text of the parsed number. */
  method KeepFixedInteger(arg: array<Octet>, parsed: int) returns (from: nat)
    requires parsed != 0 && (ParseInt(arg[..]) == Some(parsed) || (parsed > 0 && ParseUint(arg[..]) == Some(parsed)))
    modifies arg
    ensures from <= arg.Length && arg[from..] == Text(parsed)
    ensures forall k :: 0 <= k < arg.Length && k != from ==> arg[k] == old(arg[k])
  {
    if parsed < 0 {
      assert arg[..][1..] == arg[1..];
      from := SkipLeadingZeros(arg, 1);
      ghost var digits := arg[from..];
      from := from - 1;
      arg[from] := '-';
      assert arg[from..] == ['-'] + digits;
    } else {
      assert arg[..][0..] == arg[..] == arg[0..];
      from := SkipLeadingZeros(arg, 0);
    }
  }
}
