/** Command-line arguments as C strings of octets, the UTF-8 scanner, and the loops that
    validate identifiers and column strings. */
module Octets {

  datatype Option<+T> = None | Some(value: T)

  /** A byte of a C string; the terminating NUL is not stored. */
  type Octet = c: char | 0 < c as int < 256 witness 'a'

  type Arg = seq<Octet>

  const NAME_LENGTH_MAX: nat := 63
  const BASE_STRING_LENGTH_MAX: nat := 247
  const FIXED_STRING_LENGTH_MAX: nat := 255

  /** The octet a C pointer sees at offset `i`: the NUL terminator at the end. */
  function OctetAt(a: Arg, i: nat): nat
    requires i <= |a|
  {
    if i < |a| then a[i] as int else 0
  }

  /** Width announced by a leading octet, 0 for one that cannot lead. */
  function HeadWidth(head: nat): nat {
    if head < 0x80 then 1
    else if head < 0xC0 then 0
    else if head < 0xE0 then 2
    else if head < 0xF0 then 3
    else if head < 0xF8 then 4
    else 0
  }

  predicate IsContinuation(octet: nat) {
    0x80 <= octet < 0xC0
  }

  /** One code point: a leading octet followed by the continuation octets it announces. */
  predicate IsCodePoint(p: Arg) {
    && 0 < |p| == HeadWidth(p[0] as int)
    && forall k :: 1 <= k < |p| ==> IsContinuation(p[k] as int)
  }

  function Concat(pieces: seq<Arg>): Arg {
    if pieces == [] then [] else pieces[0] + Concat(pieces[1..])
  }

  /** `a` is the concatenation of exactly `n` code points. */
  ghost predicate Spells(a: Arg, n: nat) {
    exists pieces: seq<Arg> :: IsSplit(a, n, pieces)
  }

  ghost predicate IsSplit(a: Arg, n: nat, pieces: seq<Arg>) {
    |pieces| == n && Concat(pieces) == a && forall p <- pieces :: IsCodePoint(p)
  }

  /** What utf8_width returns at offset `i`: the width of the code point there, or 0. */
  function Utf8Width(a: Arg, i: nat): (width: nat)
    requires i < |a|
    ensures width != 0 ==> i + width <= |a| && IsCodePoint(a[i..i + width])
  {
    var width := HeadWidth(a[i] as int);
    if i + width <= |a| && forall k :: i < k < i + width ==> IsContinuation(a[k] as int) then
      width
    else
      0
  }

  /** No other width is a code point at offset `i`. */
  lemma WidthIsUnique(a: Arg, i: nat, w: nat)
    requires i < i + w <= |a| && IsCodePoint(a[i..i + w])
    ensures Utf8Width(a, i) == w
  {
    var p := a[i..i + w];
    assert p[0] == a[i];
    forall k | i < k < i + w ensures IsContinuation(a[k] as int) {
      assert p[k - i] == a[k];
    }
  }

  /** Code points of `a` from offset `i` on, None when some octets spell none. */
  function CountFrom(a: Arg, i: nat): Option<nat>
    requires i <= |a|
    decreases |a| - i
  {
    if i == |a| then Some(0)
    else
      var width := Utf8Width(a, i);
      if width == 0 then None
      else
        match CountFrom(a, i + width)
        case None => None
        case Some(rest) => Some(1 + rest)
  }

  predicate HasLength(a: Arg, low: nat, high: nat) {
    CountFrom(a, 0).Some? && low <= CountFrom(a, 0).value <= high
  }

  predicate IsName(a: Arg) {
    HasLength(a, 1, NAME_LENGTH_MAX)
  }

  predicate IsBaseString(a: Arg) {
    HasLength(a, 0, BASE_STRING_LENGTH_MAX - 1)
  }

  predicate IsFixedString(a: Arg) {
    HasLength(a, 0, FIXED_STRING_LENGTH_MAX - 1)
  }

  lemma {:induction false} CountToSplit(a: Arg, i: nat) returns (pieces: seq<Arg>)
    requires i <= |a| && CountFrom(a, i).Some?
    ensures IsSplit(a[i..], CountFrom(a, i).value, pieces)
    decreases |a| - i
  {
    if i == |a| {
      pieces := [];
    } else {
      var width := Utf8Width(a, i);
      var rest := CountToSplit(a, i + width);
      pieces := [a[i..i + width]] + rest;
      assert pieces[1..] == rest;
      assert a[i..] == a[i..i + width] + a[i + width..];
    }
  }

  lemma {:induction false} SplitToCount(a: Arg, i: nat, n: nat, pieces: seq<Arg>)
    requires i <= |a| && IsSplit(a[i..], n, pieces)
    ensures CountFrom(a, i) == Some(n)
    decreases n
  {
    if n == 0 {
      assert a[i..] == [];
    } else {
      var w := |pieces[0]|;
      var tail := Concat(pieces[1..]);
      assert IsCodePoint(pieces[0]) && a[i..] == pieces[0] + tail;
      assert a[i..i + w] == a[i..][..w] == pieces[0];
      assert a[i + w..] == a[i..][w..] == tail;
      WidthIsUnique(a, i, w);
      SplitToCount(a, i + w, n - 1, pieces[1..]);
    }
  }

  /** The left-to-right count is the number of code points in any way of splitting the octets. */
  lemma CountIffSpells(a: Arg, n: nat)
    ensures CountFrom(a, 0) == Some(n) <==> Spells(a, n)
  {
    assert a[0..] == a;
    if CountFrom(a, 0) == Some(n) {
      var pieces := CountToSplit(a, 0);
    }
    if Spells(a, n) {
      var pieces :| IsSplit(a, n, pieces);
      SplitToCount(a, 0, n, pieces);
    }
  }

  /** A string of `n` code points takes between `n` and `4 * n` octets. */
  lemma {:induction false} OctetsPerCodePoint(a: Arg, i: nat)
    requires i <= |a| && CountFrom(a, i).Some?
    ensures CountFrom(a, i).value <= |a| - i <= 4 * CountFrom(a, i).value
    decreases |a| - i
  {
    if i < |a| {
      OctetsPerCodePoint(a, i + Utf8Width(a, i));
    }
  }

  /** Identifiers are exactly the strings of 1 to 63 code points; they need at most 252 octets. */
  lemma NamesAreShortUtf8(a: Arg)
    ensures IsName(a) <==> exists n :: 1 <= n <= NAME_LENGTH_MAX && Spells(a, n)
    ensures IsName(a) ==> 1 <= |a| <= 4 * NAME_LENGTH_MAX
  {
    if IsName(a) {
      CountIffSpells(a, CountFrom(a, 0).value);
      OctetsPerCodePoint(a, 0);
    }
    forall n | 1 <= n <= NAME_LENGTH_MAX && Spells(a, n) ensures IsName(a) {
      CountIffSpells(a, n);
    }
  }

  /** utf8_width: reads the continuation octets one by one and never past the terminator. */
  method ScanWidth(a: Arg, i: nat) returns (width: nat)
    requires i < |a|
    ensures width == Utf8Width(a, i)
  {
    width := HeadWidth(OctetAt(a, i));
    if width == 0 {
      return;
    }
    var last := i + width;
    var octets := i + 1;
    while octets != last
      invariant i < octets <= last && octets <= |a|
      invariant forall k :: i < k < octets ==> IsContinuation(a[k] as int)
      decreases last - octets
    {
      if !IsContinuation(OctetAt(a, octets)) {
        return 0;
      }
      octets := octets + 1;
    }
  }

  /** The loop shared by parse_db_name, parse_tbl_name and parse_col_name: the byte length of
      an accepted identifier. */
  method ParseName(a: Arg) returns (length: Option<nat>)
    ensures length == if IsName(a) then Some(|a|) else None
  {
    if OctetAt(a, 0) == 0 {
      return None;
    }
    var octets: nat, rem := 0, NAME_LENGTH_MAX;
    while true
      invariant octets < |a| && 0 < rem <= NAME_LENGTH_MAX
      invariant CountFrom(a, octets).None? <==> CountFrom(a, 0).None?
      invariant CountFrom(a, 0).Some? ==>
                  CountFrom(a, 0).value == NAME_LENGTH_MAX - rem + CountFrom(a, octets).value
      decreases rem
    {
      var width := ScanWidth(a, octets);
      if width == 0 {
        return None;
      }
      octets := octets + width;
      if OctetAt(a, octets) == 0 {
        return Some(octets);
      }
      rem := rem - 1;
      if rem == 0 {
        OctetsPositive(a, octets);
        return None;
      }
    }
  }

  /** The loop shared by parse_base_string and parse_fixed_string, which tests for the
      terminator before it counts and so refuses a string of exactly `max` code points. */
  method ParseText(a: Arg, max: nat) returns (length: Option<nat>)
    requires 0 < max
    ensures length == if HasLength(a, 0, max - 1) then Some(|a|) else None
  {
    var octets: nat, rem := 0, max;
    while true
      invariant octets <= |a| && 0 < rem <= max
      invariant CountFrom(a, octets).None? <==> CountFrom(a, 0).None?
      invariant CountFrom(a, 0).Some? ==>
                  CountFrom(a, 0).value == max - rem + CountFrom(a, octets).value
      decreases rem
    {
      if OctetAt(a, octets) == 0 {
        return Some(octets);
      }
      var width := ScanWidth(a, octets);
      if width == 0 {
        return None;
      }
      octets := octets + width;
      rem := rem - 1;
      if rem == 0 {
        return None;
      }
    }
  }

  lemma OctetsPositive(a: Arg, i: nat)
    requires i < |a|
    ensures CountFrom(a, i).Some? ==> CountFrom(a, i).value > 0
  {
  }
}
