/** Code points as numbers: what octets encode them, and that the scanner takes exactly these. */
module Encoding {
  import opened Octets

  /** One more than the greatest number that fits in `width` octets. */
  function Limit(width: nat): nat {
    match width
    case 1 => 0x80
    case 2 => 0x800
    case 3 => 0x1_0000
    case 4 => 0x20_0000
    case _ => 0
  }

  /** A number that has an encoding of `width` octets, none of them NUL. */
  predicate Encodable(n: nat, width: nat) {
    n < Limit(width) && (width == 1 ==> n > 0)
  }

  function Payload(n: nat): (octet: Octet) {
    (0x80 + n % 0x40) as char
  }

  /** Six bits in every octet but the first. */
  function EncodeAs(n: nat, width: nat): (p: Arg)
    requires Encodable(n, width)
    ensures |p| == width
  {
    match width
    case 1 => [n as char]
    case 2 => [(0xC0 + n / 0x40) as char, Payload(n)]
    case 3 => [(0xE0 + n / 0x1000) as char, Payload(n / 0x40), Payload(n)]
    case 4 => [(0xF0 + n / 0x4_0000) as char, Payload(n / 0x1000), Payload(n / 0x40), Payload(n)]
  }

  /** A number that has an encoding. */
  type Scalar = n: nat | 0 < n < 0x20_0000 witness 1

  /** The shortest width that will do. */
  function ShortestWidth(n: Scalar): (width: nat)
    ensures Encodable(n, width)
  {
    if n < 0x80 then 1 else if n < 0x800 then 2 else if n < 0x1_0000 then 3 else 4
  }

  function Encode(n: Scalar): Arg {
    EncodeAs(n, ShortestWidth(n))
  }

  /** The number read off a piece. */
  function Decode(p: Arg): int {
    match |p|
    case 1 => p[0] as int
    case 2 => (p[0] as int - 0xC0) * 0x40 + (p[1] as int - 0x80)
    case 3 => (p[0] as int - 0xE0) * 0x1000 + (p[1] as int - 0x80) * 0x40 + (p[2] as int - 0x80)
    case 4 =>
      (p[0] as int - 0xF0) * 0x4_0000 + (p[1] as int - 0x80) * 0x1000 + (p[2] as int - 0x80) * 0x40 + (p[3] as int - 0x80)
    case _ => 0
  }

  lemma SixBits(n: nat)
    ensures n == n / 0x1000 * 0x1000 + n / 0x40 % 0x40 * 0x40 + n % 0x40
    ensures n / 0x1000 == n / 0x4_0000 * 0x40 + n / 0x1000 % 0x40
  {
    assert n / 0x40 / 0x40 == n / 0x1000;
    assert n / 0x1000 / 0x40 == n / 0x4_0000;
  }

  /** Every encoding is a code point to the scanner, and decodes to its number. */
  lemma EncodingIsCodePoint(n: nat, width: nat)
    requires Encodable(n, width)
    ensures IsCodePoint(EncodeAs(n, width)) && Decode(EncodeAs(n, width)) == n
  {
    SixBits(n);
  }

  lemma Recompose(a: nat, b: nat, c: nat, d: nat)
    requires b < 0x40 && c < 0x40 && d < 0x40
    ensures var n := a * 0x4_0000 + b * 0x1000 + c * 0x40 + d;
            n / 0x4_0000 == a && n / 0x1000 % 0x40 == b && n / 0x40 % 0x40 == c && n % 0x40 == d && n / 0x1000 == a * 0x40 + b
            && n / 0x40 == a * 0x1000 + b * 0x40 + c
  {
  }

  lemma FourIsEncoding(p: Arg)
    requires IsCodePoint(p) && |p| == 4
    ensures Decode(p) >= 0 && Encodable(Decode(p), 4) && EncodeAs(Decode(p), 4) == p
  {
    assert forall k :: 1 <= k < |p| ==> 0x80 <= p[k] as int < 0xC0;
    Recompose(p[0] as int - 0xF0, p[1] as int - 0x80, p[2] as int - 0x80, p[3] as int - 0x80);
  }

  /** And every code point of the scanner encodes the number that it decodes to. */
  lemma CodePointIsEncoding(p: Arg)
    requires IsCodePoint(p)
    ensures 1 <= |p| <= 4 && Decode(p) >= 0 && Encodable(Decode(p), |p|) && EncodeAs(Decode(p), |p|) == p
  {
    assert forall k :: 1 <= k < |p| ==> 0x80 <= p[k] as int < 0xC0;
    match |p|
    case 1 =>
    case 2 => Recompose(0, 0, p[0] as int - 0xC0, p[1] as int - 0x80);
    case 3 => Recompose(0, p[0] as int - 0xE0, p[1] as int - 0x80, p[2] as int - 0x80);
    case 4 => FourIsEncoding(p);
  }

  // ---------- the scanner ----------

  /** The scanner returns the width of every encoding, whatever stands before and behind it. */
  lemma EncodingIsScanned(before: Arg, n: nat, width: nat, rest: Arg)
    requires Encodable(n, width)
    ensures Utf8Width(before + EncodeAs(n, width) + rest, |before|) == width
  {
    var a := before + EncodeAs(n, width) + rest;
    EncodingIsCodePoint(n, width);
    assert a[|before|..|before| + width] == EncodeAs(n, width);
    WidthIsUnique(a, |before|, width);
  }

  /** And nothing but encodings. */
  lemma ScannedIsEncoding(a: Arg, i: nat)
    requires i < |a| && Utf8Width(a, i) != 0
    ensures var width := Utf8Width(a, i); var n := Decode(a[i..i + width]);
            n >= 0 && Encodable(n, width) && a[i..i + width] == EncodeAs(n, width)
  {
    CodePointIsEncoding(a[i..i + Utf8Width(a, i)]);
  }

  // ---------- whole strings ----------

  /** A number and the width it is encoded in. */
  type Point = p: (nat, nat) | Encodable(p.0, p.1) witness (1, 1)

  function Pieces(ps: seq<Point>): (pieces: seq<Arg>)
    ensures |pieces| == |ps|
  {
    seq(|ps|, i requires 0 <= i < |ps| => EncodeAs(ps[i].0, ps[i].1))
  }

  function EncodeAll(ps: seq<Point>): Arg {
    Concat(Pieces(ps))
  }

  function PointOf(p: Arg): (q: Point)
    requires IsCodePoint(p)
    ensures EncodeAs(q.0, q.1) == p
  {
    CodePointIsEncoding(p);
    (Decode(p), |p|)
  }

  function Points(pieces: seq<Arg>): (ps: seq<Point>)
    requires forall p <- pieces :: IsCodePoint(p)
    ensures |ps| == |pieces| && forall i :: 0 <= i < |ps| ==> EncodeAs(ps[i].0, ps[i].1) == pieces[i]
  {
    seq(|pieces|, i requires 0 <= i < |pieces| => PointOf(pieces[i]))
  }

  /** Any number of encoded points is so many code points to the scanner. */
  lemma EncodedSpells(ps: seq<Point>)
    ensures Spells(EncodeAll(ps), |ps|)
  {
    forall p <- Pieces(ps) ensures IsCodePoint(p) {
      var i :| 0 <= i < |ps| && Pieces(ps)[i] == p;
      EncodingIsCodePoint(ps[i].0, ps[i].1);
    }
    assert IsSplit(EncodeAll(ps), |ps|, Pieces(ps));
  }

  lemma SpelledIsEncoded(a: Arg, n: nat) returns (ps: seq<Point>)
    requires Spells(a, n)
    ensures |ps| == n && EncodeAll(ps) == a
  {
    var pieces: seq<Arg> :| IsSplit(a, n, pieces);
    ps := Points(pieces);
    assert Pieces(ps) == pieces;
  }

  ghost predicate IsEncoded(a: Arg, low: nat, high: nat) {
    exists ps: seq<Point> :: low <= |ps| <= high && EncodeAll(ps) == a
  }

  lemma LengthIffEncoded(a: Arg, low: nat, high: nat)
    ensures HasLength(a, low, high) <==> IsEncoded(a, low, high)
  {
    if HasLength(a, low, high) {
      var n := CountFrom(a, 0).value;
      CountIffSpells(a, n);
      var ps := SpelledIsEncoded(a, n);
    }
    if IsEncoded(a, low, high) {
      var ps: seq<Point> :| low <= |ps| <= high && EncodeAll(ps) == a;
      EncodedSpells(ps);
      CountIffSpells(a, |ps|);
    }
  }

  /** Names, base strings and fixed strings are exactly the encodings of 1 to 63, 0 to 246 and 0 to 254
      numbers below 2^21 in the octets of one to four, not necessarily the fewest. */
  lemma TextsAreEncoded(a: Arg)
    ensures IsName(a) <==> IsEncoded(a, 1, 63)
    ensures IsBaseString(a) <==> IsEncoded(a, 0, 246)
    ensures IsFixedString(a) <==> IsEncoded(a, 0, 254)
  {
    LengthIffEncoded(a, 1, 63);
    LengthIffEncoded(a, 0, 246);
    LengthIffEncoded(a, 0, 254);
  }

  /** Any 1 to 63 code points, each in its shortest encoding, are a name. */
  lemma EncodedNames(ns: seq<Scalar>)
    requires 1 <= |ns| <= 63
    ensures IsName(Concat(seq(|ns|, i requires 0 <= i < |ns| => Encode(ns[i]))))
  {
    var ps: seq<Point> := seq(|ns|, i requires 0 <= i < |ns| => (ns[i], ShortestWidth(ns[i])));
    assert Pieces(ps) == seq(|ns|, i requires 0 <= i < |ns| => Encode(ns[i]));
    TextsAreEncoded(EncodeAll(ps));
  }
}
