/** Everything the generate parser reads off one argument. */
module Tokens {
  import opened Octets
  import opened Numbers
  import F = Flags

  datatype Token = Token(
    text: Arg,
    word: F.Word,           // which flag it is, if any
    unsigned: Option<nat>,  // parse_uint
    signed: Option<int>,    // parse_int
    name: bool,             // an identifier of 1 to 63 code points
    base: bool,             // fit for BASE_STRING
    fixed: bool)            // fit for FIXED_STRING

  function Lex(a: Arg): Token {
    Token(a, F.Classify(a), ParseUint(a), ParseInt(a), IsName(a), IsBaseString(a), IsFixedString(a))
  }

  function LexAll(args: seq<Arg>): (tokens: seq<Token>)
    ensures |tokens| == |args| && forall i :: 0 <= i < |args| ==> tokens[i] == Lex(args[i])
  {
    seq(|args|, i requires 0 <= i < |args| => Lex(args[i]))
  }

  lemma NumbersInRange(a: Arg)
    ensures ParseUint(a).Some? ==> ParseUint(a).value <= UINT64_MAX
    ensures ParseInt(a).Some? ==> INT64_MIN <= ParseInt(a).value <= INT64_MAX
  {
  }

  /** The scanners of names, texts and numbers, on one argument. */
  method Scan(a: Arg) returns (token: Token)
    ensures token == Lex(a)
  {
    var name := ParseName(a);
    var base := ParseText(a, BASE_STRING_LENGTH_MAX);
    var fixed := ParseText(a, FIXED_STRING_LENGTH_MAX);
    var unsigned := ParseUnsigned(a);
    var signed := ParseSigned(a);
    var word := F.ScanWord(a);
    token := Token(a, word, unsigned, signed, name.Some?, base.Some?, fixed.Some?);
  }

  method ScanAll(args: seq<Arg>) returns (tokens: seq<Token>)
    ensures tokens == LexAll(args)
  {
    tokens := [];
    for i := 0 to |args|
      invariant |tokens| == i && forall k :: 0 <= k < i ==> tokens[k] == Lex(args[k])
    {
      var token := Scan(args[i]);
      tokens := tokens + [token];
    }
  }
}
