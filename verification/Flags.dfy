/** The flags of the generate grammar: their spellings, the two ways the parser recognises
    them, and the search for the next DB_SPEC. */
module Flags {
  import opened Octets

  datatype Flag =
    | Database | Table | Column
    | Group | Even | Linear
    | Integer | Unsigned | String | Timestamp | Datetime
    | Fixed | Unique | Random | From | Upto | Range
    | Hash | Uuid | NamesFirst | NamesLast | NamesFull | Join

  /** Short names; `U`, `F` and `R` serve several flags. */
  datatype Name = D | T | C | G | E | L | I | U | S | TS | DT | F | R | H | UU | N1 | NL | NF | J

  function ShortName(f: Flag): Name {
    match f
    case Database => D case Table => T case Column => C
    case Group => G case Even => E case Linear => L
    case Integer => I case Unsigned => U case String => S
    case Timestamp => TS case Datetime => DT
    case Fixed => F case Unique => U case Random => R
    case From => F case Upto => U case Range => R
    case Hash => H case Uuid => UU case NamesFirst => N1
    case NamesLast => NL case NamesFull => NF case Join => J
  }

  /** What the parser can tell about the text of an argument. */
  datatype Word =
    | Other(dash: bool)
    | Plus
    | Short(name: Name)
    | Long(flag: Flag)
    | Mixed(flag: Flag)   // short name, dash, long name

  /** The switch dispatchers take the short and the long spelling of a flag. */
  predicate Is(w: Word, short: Name, long: Flag) {
    w == Short(short) || w == Long(long)
  }

  /** flag_match also takes the mixed one. */
  predicate Matches(w: Word, short: Name, long: Flag) {
    Is(w, short, long) || w == Mixed(long)
  }

  predicate StartsWithDash(w: Word) {
    match w
    case Other(dash) => dash
    case Plus => false
    case _ => true
  }

  // ---------- texts ----------

  function ShortText(n: Name): Arg {
    match n
    case D => "-d" case T => "-t" case C => "-c" case G => "-g" case E => "-e"
    case L => "-l" case I => "-i" case U => "-u" case S => "-s" case TS => "-ts"
    case DT => "-dt" case F => "-f" case R => "-r" case H => "-h" case UU => "-uu"
    case N1 => "-n1" case NL => "-nl" case NF => "-nf" case J => "-j"
  }

  function LongText(f: Flag): Arg {
    match f
    case Database => "--database" case Table => "--table" case Column => "--column"
    case Group => "--group" case Even => "--even" case Linear => "--linear"
    case Integer => "--integer" case Unsigned => "--unsigned-integer" case String => "--string"
    case Timestamp => "--timestamp" case Datetime => "--datetime"
    case Fixed => "--fixed" case Unique => "--unique" case Random => "--random"
    case From => "--from" case Upto => "--upto" case Range => "--range"
    case Hash => "--hash" case Uuid => "--uuid" case NamesFirst => "--names-first"
    case NamesLast => "--names-last" case NamesFull => "--names-full" case Join => "--join"
  }

  function Spelling(f: Flag, long: bool): Arg {
    if long then LongText(f) else ShortText(ShortName(f))
  }

  function MixedText(f: Flag): Arg {
    ShortText(ShortName(f)) + LongText(f)[1..]
  }

  /** A dispatcher: a dash, then either exactly the short name, or a second dash and exactly the
      long name. */
  predicate Dispatches(a: Arg, f: Flag) {
    && OctetAt(a, 0) == '-' as int
    && if OctetAt(a, 1) == '-' as int then a[2..] == LongText(f)[2..] else a[1..] == ShortText(ShortName(f))[1..]
  }

  predicate SpecFlag(f: Flag) {
    f.Database? || f.Table? || f.Column?
  }

  function WordOrOther(found: bool, w: Word): Word {
    if found then w else Other(true)
  }

  function ClassifyShort(a: Arg): Word
    requires |a| >= 2 && a[0] == '-'
  {
    match a[1]
    case 'd' =>
      if a == "-d" then Short(D) else if a == "-dt" then Short(DT)
      else WordOrOther(a == "-d-database", Mixed(Database))
    case 't' =>
      if a == "-t" then Short(T) else if a == "-ts" then Short(TS)
      else WordOrOther(a == "-t-table", Mixed(Table))
    case 'c' => if a == "-c" then Short(C) else WordOrOther(a == "-c-column", Mixed(Column))
    case 'g' => WordOrOther(a == "-g", Short(G))
    case 'e' => WordOrOther(a == "-e", Short(E))
    case 'l' => WordOrOther(a == "-l", Short(L))
    case 'i' => WordOrOther(a == "-i", Short(I))
    case 'u' => if a == "-u" then Short(U) else WordOrOther(a == "-uu", Short(UU))
    case 's' => WordOrOther(a == "-s", Short(S))
    case 'f' => WordOrOther(a == "-f", Short(F))
    case 'r' => WordOrOther(a == "-r", Short(R))
    case 'h' => WordOrOther(a == "-h", Short(H))
    case 'n' =>
      if a == "-n1" then Short(N1) else if a == "-nl" then Short(NL) else WordOrOther(a == "-nf", Short(NF))
    case 'j' => WordOrOther(a == "-j", Short(J))
    case _ => Other(true)
  }

  function ClassifyLong(a: Arg): Word
    requires |a| >= 3 && a[0] == '-' && a[1] == '-'
  {
    match a[2]
    case 'd' => if a == "--database" then Long(Database) else WordOrOther(a == "--datetime", Long(Datetime))
    case 't' => if a == "--table" then Long(Table) else WordOrOther(a == "--timestamp", Long(Timestamp))
    case 'c' => WordOrOther(a == "--column", Long(Column))
    case 'g' => WordOrOther(a == "--group", Long(Group))
    case 'e' => WordOrOther(a == "--even", Long(Even))
    case 'l' => WordOrOther(a == "--linear", Long(Linear))
    case 'i' => WordOrOther(a == "--integer", Long(Integer))
    case 'u' =>
      if a == "--unsigned-integer" then Long(Unsigned) else if a == "--unique" then Long(Unique)
      else if a == "--upto" then Long(Upto) else WordOrOther(a == "--uuid", Long(Uuid))
    case 's' => WordOrOther(a == "--string", Long(String))
    case 'f' => if a == "--fixed" then Long(Fixed) else WordOrOther(a == "--from", Long(From))
    case 'r' => if a == "--random" then Long(Random) else WordOrOther(a == "--range", Long(Range))
    case 'h' => WordOrOther(a == "--hash", Long(Hash))
    case 'n' =>
      if a == "--names-first" then Long(NamesFirst) else if a == "--names-last" then Long(NamesLast)
      else WordOrOther(a == "--names-full", Long(NamesFull))
    case 'j' => WordOrOther(a == "--join", Long(Join))
    case _ => Other(true)
  }

  /** Branches on the letters the dispatchers branch on, then compares the rest. */
  function Classify(a: Arg): Word {
    if OctetAt(a, 0) != '-' as int then (if a == "+" then Plus else Other(false))
    else if |a| >= 3 && a[1] == '-' then ClassifyLong(a)
    else if |a| >= 2 then ClassifyShort(a)
    else Other(true)
  }

  lemma TextShape(f: Flag)
    ensures var s := ShortText(ShortName(f)); |s| >= 2 && s[0] == '-' && s[1] != '-'
    ensures |LongText(f)| >= 4 && LongText(f)[0] == '-' && LongText(f)[1] == '-'
  {
  }

  lemma ClassifiesShort(n: Name)
    ensures Classify(ShortText(n)) == Short(n)
  {
    var a := ShortText(n);
    assert |a| < 3 || a[1] != '-';
    assert |a| == 2 || a[2] != '-';
  }

  /** The letters behind the dashes of these begin only one or two long names. */
  predicate IsRare(f: Flag) {
    !(f.Unsigned? || f.Unique? || f.Upto? || f.Uuid? || f.NamesFirst? || f.NamesLast? || f.NamesFull?)
  }

  lemma ClassifiesRare(f: Flag)
    requires IsRare(f)
    ensures Classify(LongText(f)) == Long(f)
  {
    var a := LongText(f);
    match f
    case Datetime => assert a[6] == 't';
    case Timestamp => assert a[3] == 'i';
    case From => assert |a| == 6;
    case Range => assert |a| == 7;
    case _ =>
  }

  lemma ClassifiesLong(f: Flag)
    ensures Classify(LongText(f)) == Long(f)
  {
    var a := LongText(f);
    if IsRare(f) {
      ClassifiesRare(f);
    } else {
      match f
      case Unique => assert |a| == 8;
      case Upto => assert |a| == 6 && a[3] == 'p';
      case Uuid => assert |a| == 6 && a[3] == 'u';
      case NamesLast => assert |a| == 12 && a[8] == 'l';
      case NamesFull => assert |a| == 12 && a[8] == 'f';
      case _ =>
    }
  }

  lemma ClassifiesMixed(f: Flag)
    requires SpecFlag(f)
    ensures Classify(MixedText(f)) == Mixed(f)
  {
    var a := MixedText(f);
    match f
    case Database => assert a == "-d-database"; assert a[1] == 'd' && |a| == 11;
    case Table => assert a == "-t-table"; assert a[1] == 't' && |a| == 8;
    case Column => assert a == "-c-column"; assert a[1] == 'c' && |a| == 9;
  }

  predicate Denotes(w: Word, a: Arg) {
    match w
    case Short(n) => a == ShortText(n)
    case Long(f) => a == LongText(f)
    case Mixed(f) => SpecFlag(f) && a == MixedText(f)
    case Plus => a == "+"
    case Other(dash) => dash <==> OctetAt(a, 0) == '-' as int
  }

  lemma ShortInverts(a: Arg)
    requires |a| >= 2 && a[0] == '-'
    ensures Denotes(ClassifyShort(a), a)
  {
    assert MixedText(Database) == "-d-database";
    assert MixedText(Table) == "-t-table";
    assert MixedText(Column) == "-c-column";
  }

  lemma LongInverts(a: Arg)
    requires |a| >= 3 && a[0] == '-' && a[1] == '-'
    ensures Denotes(ClassifyLong(a), a)
  {
  }

  /** A word other than `Other` determines the text. */
  lemma ClassifyInverts(a: Arg)
    ensures Denotes(Classify(a), a)
  {
    if OctetAt(a, 0) != '-' as int {
    } else if |a| >= 3 && a[1] == '-' {
      LongInverts(a);
    } else if |a| >= 2 {
      ShortInverts(a);
    }
  }

  /** The texts of a flag are classified as that flag, and nothing else is. */
  lemma WordIff(a: Arg, f: Flag)
    ensures Classify(a) == Short(ShortName(f)) <==> a == ShortText(ShortName(f))
    ensures Classify(a) == Long(f) <==> a == LongText(f)
    ensures SpecFlag(f) ==> (Classify(a) == Mixed(f) <==> a == MixedText(f))
  {
    ClassifyInverts(a);
    ClassifiesShort(ShortName(f));
    ClassifiesLong(f);
    if SpecFlag(f) {
      ClassifiesMixed(f);
    }
  }

  /** A dispatcher that accepts a text has read all of it. */
  lemma DispatchedText(a: Arg, s: Arg, l: Arg)
    requires |s| >= 2 && s[0] == '-' && s[1] != '-' && |l| >= 4 && l[0] == '-' && l[1] == '-' && OctetAt(a, 0) == '-' as int
    ensures (if OctetAt(a, 1) == '-' as int then a[2..] == l[2..] else a[1..] == s[1..]) <==> a == s || a == l
  {
    if OctetAt(a, 1) == '-' as int {
      assert a == a[..2] + a[2..] && l == l[..2] + l[2..] && a[..2] == l[..2];
    } else {
      assert a == a[..1] + a[1..] && s == s[..1] + s[1..] && a[..1] == s[..1];
    }
  }

  /** Classifying the text of an argument loses nothing the dispatchers look at. */
  lemma {:induction false} DispatchIsWord(a: Arg, f: Flag)
    ensures Dispatches(a, f) <==> a == Spelling(f, false) || a == Spelling(f, true)
    ensures Dispatches(a, f) <==> Is(Classify(a), ShortName(f), f)
  {
    TextShape(f);
    WordIff(a, f);
    if OctetAt(a, 0) == '-' as int {
      DispatchedText(a, ShortText(ShortName(f)), LongText(f));
    }
  }

  /** flag_match on a short letter and a long name: a short letter that goes on with a dash
      falls through to the long test. */
  predicate MatchesText(a: Arg, short: Octet, long: Arg) {
    a == ['-', short] || a == ['-', '-'] + long || a == ['-', short, '-'] + long
  }

  lemma {:induction false} MatchIsWord(a: Arg, f: Flag)
    requires SpecFlag(f)
    ensures MatchesText(a, ShortText(ShortName(f))[1], LongText(f)[2..]) <==> Matches(Classify(a), ShortName(f), f)
  {
    var s, l := ShortText(ShortName(f)), LongText(f);
    TextShape(f);
    assert ['-', s[1]] == s;
    assert ['-', '-'] + l[2..] == l;
    assert ['-', s[1], '-'] + l[2..] == MixedText(f);
    WordIff(a, f);
  }

  /** `-d-database` opens a DB_SPEC when it comes first or after an error, but nowhere else. */
  lemma MixedOnlyMatches(f: Flag)
    requires SpecFlag(f)
    ensures Matches(Classify(MixedText(f)), ShortName(f), f) && !Is(Classify(MixedText(f)), ShortName(f), f)
  {
    ClassifiesMixed(f);
  }

  method StringsEqual(s: Arg, t: Arg) returns (equal: bool)
    ensures equal == (s == t)
  {
    var i := 0;
    while true
      invariant i <= |s| && i <= |t| && s[..i] == t[..i]
      decreases |s| - i
    {
      if OctetAt(s, i) != OctetAt(t, i) {
        assert i < |s| && i < |t| ==> s[i] != t[i];
        return false;
      }
      if OctetAt(s, i) == 0 {
        return true;
      }
      i := i + 1;
    }
  }

  /** One case of a dispatcher. */
  method TestWord(a: Arg, text: Arg, w: Word) returns (word: Word)
    ensures word == WordOrOther(a == text, w)
  {
    var equal := StringsEqual(a, text);
    word := if equal then w else Other(true);
  }

  /** A case that goes on to another one. */
  method TestWords(a: Arg, text: Arg, w: Word, other: Arg, v: Word) returns (word: Word)
    ensures word == if a == text then w else WordOrOther(a == other, v)
  {
    var equal := StringsEqual(a, text);
    if equal {
      return w;
    }
    word := TestWord(a, other, v);
  }

  method ScanShort(a: Arg) returns (word: Word)
    requires |a| >= 2 && a[0] == '-'
    ensures word == ClassifyShort(a)
  {
    match a[1] {
      case 'd' =>
        word := TestWords(a, "-d", Short(D), "-dt", Short(DT));
        if word.Other? {
          word := TestWord(a, "-d-database", Mixed(Database));
        }
      case 't' =>
        word := TestWords(a, "-t", Short(T), "-ts", Short(TS));
        if word.Other? {
          word := TestWord(a, "-t-table", Mixed(Table));
        }
      case 'c' => word := TestWords(a, "-c", Short(C), "-c-column", Mixed(Column));
      case 'g' => word := TestWord(a, "-g", Short(G));
      case 'e' => word := TestWord(a, "-e", Short(E));
      case 'l' => word := TestWord(a, "-l", Short(L));
      case 'i' => word := TestWord(a, "-i", Short(I));
      case 'u' => word := TestWords(a, "-u", Short(U), "-uu", Short(UU));
      case 's' => word := TestWord(a, "-s", Short(S));
      case 'f' => word := TestWord(a, "-f", Short(F));
      case 'r' => word := TestWord(a, "-r", Short(R));
      case 'h' => word := TestWord(a, "-h", Short(H));
      case 'n' =>
        word := TestWords(a, "-n1", Short(N1), "-nl", Short(NL));
        if word.Other? {
          word := TestWord(a, "-nf", Short(NF));
        }
      case 'j' => word := TestWord(a, "-j", Short(J));
      case _ => word := Other(true);
    }
  }

  method ScanLong(a: Arg) returns (word: Word)
    requires |a| >= 3 && a[0] == '-' && a[1] == '-'
    ensures word == ClassifyLong(a)
  {
    match a[2] {
      case 'd' => word := TestWords(a, "--database", Long(Database), "--datetime", Long(Datetime));
      case 't' => word := TestWords(a, "--table", Long(Table), "--timestamp", Long(Timestamp));
      case 'c' => word := TestWord(a, "--column", Long(Column));
      case 'g' => word := TestWord(a, "--group", Long(Group));
      case 'e' => word := TestWord(a, "--even", Long(Even));
      case 'l' => word := TestWord(a, "--linear", Long(Linear));
      case 'i' => word := TestWord(a, "--integer", Long(Integer));
      case 'u' =>
        word := TestWords(a, "--unsigned-integer", Long(Unsigned), "--unique", Long(Unique));
        if word.Other? {
          word := TestWords(a, "--upto", Long(Upto), "--uuid", Long(Uuid));
        }
      case 's' => word := TestWord(a, "--string", Long(String));
      case 'f' => word := TestWords(a, "--fixed", Long(Fixed), "--from", Long(From));
      case 'r' => word := TestWords(a, "--random", Long(Random), "--range", Long(Range));
      case 'h' => word := TestWord(a, "--hash", Long(Hash));
      case 'n' =>
        word := TestWords(a, "--names-first", Long(NamesFirst), "--names-last", Long(NamesLast));
        if word.Other? {
          word := TestWord(a, "--names-full", Long(NamesFull));
        }
      case 'j' => word := TestWord(a, "--join", Long(Join));
      case _ => word := Other(true);
    }
  }

  /** The two-level switches of all dispatchers together: a dash, one letter or a second dash and a
      letter, then the rest of one spelling after the other. */
  method ScanWord(a: Arg) returns (word: Word)
    ensures word == Classify(a)
  {
    if OctetAt(a, 0) != '-' as int {
      var plus := StringsEqual(a, "+");
      return if plus then Plus else Other(false);
    }
    if OctetAt(a, 1) == 0 {
      return Other(true);
    }
    if OctetAt(a, 1) == '-' as int && OctetAt(a, 2) != 0 {
      word := ScanLong(a);
    } else {
      word := ScanShort(a);
    }
  }

  /** flag_match, octet by octet. */
  method FlagMatch(a: Arg, short: Octet, long: Arg) returns (matched: bool)
    requires short != '-'
    ensures matched == MatchesText(a, short, long)
  {
    if OctetAt(a, 0) != '-' as int {
      return false;
    }
    var arg := 1;
    if OctetAt(a, arg) == short as int {
      arg := arg + 1;
      if OctetAt(a, arg) == 0 {
        return true;
      }
    }
    if OctetAt(a, arg) != '-' as int {
      return false;
    }
    arg := arg + 1;
    matched := StringsEqual(a[arg..], long);
    assert a == a[..arg] + a[arg..];
    if arg == 3 {
      assert a[..arg] == ['-', short, '-'];
      assert (['-', short, '-'] + long)[arg..] == long;
    } else {
      assert a[..arg] == ['-', '-'];
      assert (['-', '-'] + long)[arg..] == long;
    }
  }

  /** db_flag_match, tbl_flag_match and col_flag_match. */
  method SpecFlagMatch(a: Arg, f: Flag) returns (matched: bool)
    requires SpecFlag(f)
    ensures matched == Matches(Classify(a), ShortName(f), f)
  {
    MatchIsWord(a, f);
    TextShape(f);
    matched := FlagMatch(a, ShortText(ShortName(f))[1], LongText(f)[2..]);
  }

  /** flag_match_next: the leftmost match at or after `from`, or the end of the arguments;
      `from` may already lie past the end. */
  method FlagMatchNext(argv: seq<Arg>, from: nat, f: Flag) returns (at: nat)
    requires SpecFlag(f)
    ensures at <= |argv| && (from <= |argv| ==> from <= at)
    ensures at < |argv| ==> Matches(Classify(argv[at]), ShortName(f), f)
    ensures forall k :: from <= k < at ==> !Matches(Classify(argv[k]), ShortName(f), f)
  {
    at := from;
    while at < |argv|
      invariant from <= at && (at <= |argv| || at == from)
      invariant forall k :: from <= k < at && k < |argv| ==> !Matches(Classify(argv[k]), ShortName(f), f)
    {
      var matched := SpecFlagMatch(argv[at], f);
      if matched {
        return;
      }
      at := at + 1;
    }
    at := |argv|;
  }

  ghost function MatchingBefore(argv: seq<Arg>, until: nat, f: Flag): set<nat>
    requires until <= |argv|
  {
    set k: nat | k < until && Matches(Classify(argv[k]), ShortName(f), f)
  }

  lemma MatchingStep(argv: seq<Arg>, k: nat, f: Flag)
    requires k < |argv|
    ensures MatchingBefore(argv, k + 1, f) ==
            if Matches(Classify(argv[k]), ShortName(f), f) then MatchingBefore(argv, k, f) + {k} else MatchingBefore(argv, k, f)
  {
  }

  /** flag_match_count. */
  method FlagMatchCount(argv: seq<Arg>, f: Flag) returns (count: nat)
    requires SpecFlag(f)
    ensures count == |MatchingBefore(argv, |argv|, f)|
  {
    count := 0;
    for from := 0 to |argv|
      invariant count == |MatchingBefore(argv, from, f)|
    {
      var matched := SpecFlagMatch(argv[from], f);
      MatchingStep(argv, from, f);
      if matched {
        count := count + 1;
      }
    }
  }

  /** flag_next: the first argument that starts with a dash, or the end. */
  method FlagNext(argv: seq<Arg>, start: nat) returns (at: nat)
    requires start <= |argv|
    ensures start <= at <= |argv|
    ensures forall k :: start <= k < at ==> OctetAt(argv[k], 0) != '-' as int
    ensures at < |argv| ==> OctetAt(argv[at], 0) == '-' as int
  {
    at := start;
    while at < |argv| && OctetAt(argv[at], 0) != '-' as int
      invariant start <= at <= |argv|
      invariant forall k :: start <= k < at ==> OctetAt(argv[k], 0) != '-' as int
    {
      at := at + 1;
    }
  }
}
