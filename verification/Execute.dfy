/** Execute mode: the credentials in either order, and the database names that follow them. */
module Execute {
  import opened Octets
  import opened Specs
  import opened Tokens
  import opened Grammar
  import opened WellFormed

  /** None stands for the default, a null pointer. */
  datatype Credentials = Credentials(user: Option<Arg>, password: Option<Arg>)

  /** An option at some argument: not there, there but without its argument, there with a value,
      or there to be prompted for; `next` is the argument behind it. */
  datatype Found = Absent | Missing | Value(text: Arg, next: nat) | Prompt(next: nat)

  predicate StartsWith(a: Arg, prefix: Arg) {
    |prefix| <= |a| && a[..|prefix|] == prefix
  }

  function UserAt(args: seq<Arg>, i: nat): Found
    requires i < |args|
  {
    var a := args[i];
    if a == "-u" || a == "--user" then (if i + 1 == |args| then Missing else Value(args[i + 1], i + 2))
    else if StartsWith(a, "-u") then Value(a[2..], i + 1)
    else if StartsWith(a, "--user=") then Value(a[7..], i + 1)
    else Absent
  }

  function PasswordAt(args: seq<Arg>, i: nat): Found
    requires i < |args|
  {
    var a := args[i];
    if a == "-p" || a == "--password" then Prompt(i + 1)
    else if StartsWith(a, "-p") then Value(a[2..], i + 1)
    else if StartsWith(a, "--password=") then Value(a[11..], i + 1)
    else Absent
  }

  /** The value of an option that may stand at `i`, and the argument behind it, of which there must
      be one; `prompt` is what a prompt would bring, None if it fails. */
  function Resolve(f: Found, i: nat, n: nat, prompt: Option<Arg>): Option<(Option<Arg>, nat)> {
    match f
    case Absent => if i < n then Some((None, i)) else None
    case Missing => None
    case Value(text, next) => if next < n then Some((Some(text), next)) else None
    case Prompt(next) => if prompt.Some? && next < n then Some((prompt, next)) else None
  }

  function UserFrom(args: seq<Arg>, i: nat): Option<(Option<Arg>, nat)> {
    if i < |args| then Resolve(UserAt(args, i), i, |args|, None) else None
  }

  function PasswordFrom(args: seq<Arg>, i: nat, prompt: Option<Arg>): Option<(Option<Arg>, nat)> {
    if i < |args| then Resolve(PasswordAt(args, i), i, |args|, prompt) else None
  }

  /** The credentials, and the position of the first name behind them. */
  function CredentialsOf(args: seq<Arg>, prompt: Option<Arg>): Option<(Credentials, nat)>
    requires args != []
  {
    if !UserAt(args, 0).Absent? then
      match UserFrom(args, 0)
      case None => None
      case Some((user, i)) =>
        (match PasswordFrom(args, i, prompt)
         case None => None
         case Some((password, j)) => Some((Credentials(user, password), j)))
    else if !PasswordAt(args, 0).Absent? then
      match PasswordFrom(args, 0, prompt)
      case None => None
      case Some((password, i)) =>
        (match UserFrom(args, i)
         case None => None
         case Some((user, j)) => Some((Credentials(user, password), j)))
    else Some((Credentials(None, None), 0))
  }

  // ---------- what the options promise ----------

  /** `-u NAME`, `-uNAME`, `--user NAME` and `--user=NAME`. */
  predicate SpellsUser(part: seq<Arg>, user: Arg) {
    || part == ["-u", user] || part == ["--user", user]
    || (user != [] && part == ["-u" + user]) || part == ["--user=" + user]
  }

  /** `-p` and `--password` ask for the password, `-pPASSWORD` and `--password=PASSWORD` give it. */
  predicate SpellsPassword(part: seq<Arg>, password: Option<Arg>, prompt: Option<Arg>) {
    || (password == prompt && (part == ["-p"] || part == ["--password"]))
    || (password.Some? && password.value != [] && part == ["-p" + password.value])
    || (password.Some? && part == ["--password=" + password.value])
  }

  lemma PrefixIsSplit(prefix: Arg, rest: Arg)
    ensures StartsWith(prefix + rest, prefix) && (prefix + rest)[|prefix|..] == rest
  {
  }

  lemma UserIsFound(args: seq<Arg>, i: nat, part: seq<Arg>, user: Arg)
    requires SpellsUser(part, user) && i + |part| <= |args| && args[i..i + |part|] == part
    ensures UserAt(args, i) == Value(user, i + |part|)
    ensures PasswordAt(args, i).Absent?
  {
    var a := args[i];
    assert a == part[0];
    PrefixIsSplit("-u", user);
    PrefixIsSplit("--user=", user);
    assert |part| == 2 ==> args[i + 1] == part[1];
    assert a[1] != 'p';
    assert StartsWith(a, "--user=") ==> a[2] == 'u';
    assert a[1] == '-' ==> a[2] == 'u';
  }

  lemma PasswordIsFound(args: seq<Arg>, i: nat, part: seq<Arg>, password: Option<Arg>, prompt: Option<Arg>)
    requires SpellsPassword(part, password, prompt) && i + |part| <= |args| && args[i..i + |part|] == part
    ensures i + |part| < |args| ==> PasswordFrom(args, i, prompt) == if password.Some? then Some((password, i + |part|)) else None
    ensures UserAt(args, i).Absent? && !PasswordAt(args, i).Absent?
  {
    var a := args[i];
    assert a == part[0];
    if password.Some? {
      PrefixIsSplit("-p", password.value);
      PrefixIsSplit("--password=", password.value);
    }
    assert a[1] == 'p' || a[2] == 'p';
    assert |a| >= 7 ==> a[..7][1] == a[1] && a[..7][2] == a[2];
  }

  lemma UserFirst(args: seq<Arg>, u: seq<Arg>, user: Arg, p: seq<Arg>, password: Option<Arg>, prompt: Option<Arg>)
    requires SpellsUser(u, user) && SpellsPassword(p, password, prompt) && |u| + |p| < |args|
    requires args[0..|u|] == u && args[|u|..|u| + |p|] == p
    ensures CredentialsOf(args, prompt) == if password.Some? then Some((Credentials(Some(user), password), |u| + |p|)) else None
  {
    UserIsFound(args, 0, u, user);
    PasswordIsFound(args, |u|, p, password, prompt);
  }

  lemma PasswordFirst(args: seq<Arg>, u: seq<Arg>, user: Arg, p: seq<Arg>, password: Option<Arg>, prompt: Option<Arg>)
    requires SpellsUser(u, user) && SpellsPassword(p, password, prompt) && |u| + |p| < |args|
    requires args[0..|p|] == p && args[|p|..|p| + |u|] == u
    ensures CredentialsOf(args, prompt) == if password.Some? then Some((Credentials(Some(user), password), |u| + |p|)) else None
  {
    PasswordIsFound(args, 0, p, password, prompt);
    UserIsFound(args, |p|, u, user);
  }

  /** The order of the two options does not matter: with names behind them, both give the same
      credentials and the same names, or both fail because the prompt does. */
  lemma OrderDoesNotMatter(u: seq<Arg>, user: Arg, p: seq<Arg>, password: Option<Arg>, prompt: Option<Arg>, names: seq<Arg>)
    requires SpellsUser(u, user) && SpellsPassword(p, password, prompt) && names != []
    ensures var both := if password.Some? then Some((Credentials(Some(user), password), |u| + |p|)) else None;
            CredentialsOf(u + p + names, prompt) == both && CredentialsOf(p + u + names, prompt) == both
    ensures (u + p + names)[|u| + |p|..] == (p + u + names)[|u| + |p|..] == names
  {
    UserFirst(u + p + names, u, user, p, password, prompt);
    PasswordFirst(p + u + names, u, user, p, password, prompt);
  }

  /** Credentials are only accepted with a name behind them. */
  lemma NamesRemain(args: seq<Arg>, prompt: Option<Arg>)
    requires args != [] && CredentialsOf(args, prompt).Some?
    ensures CredentialsOf(args, prompt).value.1 < |args|
  {
  }

  // ---------- CRED_SPEC ----------

  /** Begins the user option, whether or not its argument is there. */
  predicate StartsUser(a: Arg) {
    StartsWith(a, "-u") || a == "--user" || StartsWith(a, "--user=")
  }

  predicate StartsPassword(a: Arg) {
    StartsWith(a, "-p") || a == "--password" || StartsWith(a, "--password=")
  }

  ghost predicate SpellsBoth(part: seq<Arg>, user: Arg, password: Option<Arg>, prompt: Option<Arg>) {
    exists u: seq<Arg>, p: seq<Arg> ::
      SpellsUser(u, user) && SpellsPassword(p, password, prompt) && (part == u + p || part == p + u)
  }

  /** Both options in either order, one of them, or none. */
  ghost predicate SpellsCredentials(part: seq<Arg>, c: Credentials, prompt: Option<Arg>) {
    match c
    case Credentials(None, None) => part == []
    case Credentials(Some(user), None) => SpellsUser(part, user)
    case Credentials(None, Some(_)) => SpellsPassword(part, c.password, prompt)
    case Credentials(Some(user), Some(_)) => SpellsBoth(part, user, c.password, prompt)
  }

  /** `a` does not go on with an option that is still missing. */
  predicate Ends(c: Credentials, a: Arg) {
    (c.user.None? ==> !StartsUser(a)) && (c.password.None? ==> !StartsPassword(a))
  }

  lemma OneArgument(args: seq<Arg>, i: nat)
    requires i < |args|
    ensures args[i..i + 1] == [args[i]]
  {
  }

  lemma UserAtSpells(args: seq<Arg>, i: nat)
    requires i < |args|
    ensures UserAt(args, i).Absent? <==> !StartsUser(args[i])
    ensures UserAt(args, i).Value? ==>
              var Value(user, next) := UserAt(args, i); i < next <= |args| && SpellsUser(args[i..next], user)
  {
    var a := args[i];
    if UserAt(args, i).Value? {
      var Value(user, next) := UserAt(args, i);
      if next == i + 1 {
        OneArgument(args, i);
        assert StartsWith(a, "-u") ==> a == "-u" + a[2..];
        assert StartsWith(a, "--user=") ==> a == "--user=" + a[7..];
      } else {
        assert args[i..next] == [a, args[i + 1]];
      }
    }
  }

  lemma PasswordAtSpells(args: seq<Arg>, i: nat, prompt: Option<Arg>)
    requires i < |args|
    ensures PasswordAt(args, i).Absent? <==> !StartsPassword(args[i])
    ensures var r := PasswordFrom(args, i, prompt);
            r.Some? && r.value.0.Some? ==>
              i < r.value.1 < |args| && SpellsPassword(args[i..r.value.1], r.value.0, prompt)
    ensures var r := PasswordFrom(args, i, prompt); r.Some? && r.value.0.None? ==> r.value.1 == i && !StartsPassword(args[i])
  {
    var a := args[i];
    OneArgument(args, i);
    assert StartsWith(a, "-p") ==> a == "-p" + a[2..];
    assert StartsWith(a, "--password=") ==> a == "--password=" + a[11..];
  }

  lemma SpelledInOrder(args: seq<Arg>, i: nat, j: nat)
    requires i <= j <= |args|
    ensures args[..j] == args[..i] + args[i..j]
  {
  }

  /** What is accepted is spelled, and nothing behind it could still belong to it. */
  lemma CredentialsSound(args: seq<Arg>, prompt: Option<Arg>)
    requires args != [] && CredentialsOf(args, prompt).Some?
    ensures var (c, i) := CredentialsOf(args, prompt).value;
            i < |args| && SpellsCredentials(args[..i], c, prompt) && Ends(c, args[i])
  {
    UserAtSpells(args, 0);
    PasswordAtSpells(args, 0, prompt);
    var (c, j) := CredentialsOf(args, prompt).value;
    if !UserAt(args, 0).Absent? {
      var i := UserFrom(args, 0).value.1;
      PasswordAtSpells(args, i, prompt);
      SpelledInOrder(args, i, j);
      assert args[0..i] == args[..i];
    } else if !PasswordAt(args, 0).Absent? {
      var i := PasswordFrom(args, 0, prompt).value.1;
      UserAtSpells(args, i);
      SpelledInOrder(args, i, j);
      assert args[0..i] == args[..i];
    }
  }

  lemma PartAt(args: seq<Arg>, i: nat, x: seq<Arg>, y: seq<Arg>)
    requires i <= |args| && args[..i] == x + y
    ensures |x| + |y| == i && args[0..|x|] == x && args[|x|..|x| + |y|] == y
  {
    assert args[0..|x|] == args[..i][..|x|] && args[|x|..i] == args[..i][|x|..];
  }

  lemma BothComplete(args: seq<Arg>, i: nat, user: Arg, password: Option<Arg>, prompt: Option<Arg>)
    requires i < |args| && SpellsBoth(args[..i], user, password, prompt) && password.Some?
    ensures CredentialsOf(args, prompt) == Some((Credentials(Some(user), password), i))
  {
    var part := args[..i];
    var u: seq<Arg>, p: seq<Arg> :| SpellsUser(u, user) && SpellsPassword(p, password, prompt) &&
      (part == u + p || part == p + u);
    if part == u + p {
      PartAt(args, i, u, p);
      UserFirst(args, u, user, p, password, prompt);
    } else {
      PartAt(args, i, p, u);
      PasswordFirst(args, u, user, p, password, prompt);
    }
  }

  /** Whatever is spelled is accepted, up to a name that could not belong to it. */
  lemma CredentialsComplete(args: seq<Arg>, i: nat, c: Credentials, prompt: Option<Arg>)
    requires i < |args| && SpellsCredentials(args[..i], c, prompt) && Ends(c, args[i])
    ensures CredentialsOf(args, prompt) == Some((c, i))
  {
    assert args[0..i] == args[..i];
    UserAtSpells(args, i);
    PasswordAtSpells(args, i, prompt);
    match c
    case Credentials(None, None) =>
    case Credentials(Some(user), None) => UserIsFound(args, 0, args[..i], user);
    case Credentials(None, Some(_)) => PasswordIsFound(args, 0, args[..i], c.password, prompt);
    case Credentials(Some(user), Some(_)) => BothComplete(args, i, user, c.password, prompt);
  }

  /** Exactly the CRED_SPECs, with both options, one or none, are accepted, as far as they go and
      with a name behind them. */
  lemma CredentialsIff(args: seq<Arg>, c: Credentials, i: nat, prompt: Option<Arg>)
    requires args != []
    ensures CredentialsOf(args, prompt) == Some((c, i)) <==>
            i < |args| && SpellsCredentials(args[..i], c, prompt) && Ends(c, args[i])
  {
    if CredentialsOf(args, prompt) == Some((c, i)) {
      CredentialsSound(args, prompt);
    }
    if i < |args| && SpellsCredentials(args[..i], c, prompt) && Ends(c, args[i]) {
      CredentialsComplete(args, i, c, prompt);
    }
  }

  // ---------- the options as they are parsed ----------

  lemma PrefixGrows(a: Arg, at: nat, i: nat, prefix: Arg)
    requires at + i < |a| && i < |prefix| && a[at..at + i] == prefix[..i] && a[at + i] == prefix[i]
    ensures a[at..at + i + 1] == prefix[..i + 1]
  {
    assert a[at..at + i + 1] == a[at..at + i] + [a[at + i]];
    assert prefix[..i + 1] == prefix[..i] + [prefix[i]];
  }

  /** string_starts_with: the offset behind the prefix. */
  method StringStartsWith(a: Arg, at: nat, prefix: Arg) returns (end: Option<nat>)
    requires at <= |a|
    ensures end == if StartsWith(a[at..], prefix) then Some(at + |prefix|) else None
  {
    var i := 0;
    while true
      invariant i <= |prefix| && at + i <= |a| && a[at..at + i] == prefix[..i]
      decreases |prefix| - i
    {
      if OctetAt(a, at + i) != OctetAt(prefix, i) {
        if i == |prefix| {
          assert a[at..][..i] == a[at..at + i];
          return Some(at + i);
        }
        assert |prefix| <= |a[at..]| ==> a[at..][..|prefix|][i] == a[at + i];
        return None;
      }
      if OctetAt(a, at + i) == 0 {
        assert a[at..][..i] == a[at..at + i];
        return Some(at + i);
      }
      PrefixGrows(a, at, i, prefix);
      i := i + 1;
    }
  }

  /** The first of two octets, then a short name or a dash and a long name: where the rest of the
      option begins, None if it is another argument. */
  method OptionRest(a: Arg, short: Octet, long: Arg) returns (rest: Option<nat>)
    requires short != '-' && long != []
    ensures rest == if StartsWith(a, ['-', short]) then Some(2)
                    else if StartsWith(a, "--" + long) && (|a| == 2 + |long| || a[2 + |long|] == '=') then Some(2 + |long|) else None
  {
    if OctetAt(a, 0) != '-' as int {
      return None;
    }
    if OctetAt(a, 1) == short as int {
      return Some(2);
    }
    if OctetAt(a, 1) != '-' as int {
      return None;
    }
    var end := StringStartsWith(a, 2, long);
    assert a == "--" + a[2..];
    assert StartsWith(a[2..], long) <==> StartsWith(a, "--" + long) by {
      if StartsWith(a[2..], long) {
        assert a[..2 + |long|] == "--" + a[2..][..|long|];
      }
      if StartsWith(a, "--" + long) {
        assert a[2..][..|long|] == a[..2 + |long|][2..];
      }
    }
    if end.Some? && (OctetAt(a, end.value) == 0 || OctetAt(a, end.value) == '=' as int) {
      return end;
    }
    return None;
  }

  lemma UserByRest(args: seq<Arg>, i: nat)
    requires i < |args|
    ensures var a := args[i];
            UserAt(args, i) ==
            if StartsWith(a, "-u") then
              (if |a| > 2 then Value(a[2..], i + 1) else if i + 1 == |args| then Missing else Value(args[i + 1], i + 2))
            else if StartsWith(a, "--user") && |a| == 6 then (if i + 1 == |args| then Missing else Value(args[i + 1], i + 2))
            else if StartsWith(a, "--user") && a[6] == '=' then Value(a[7..], i + 1)
            else Absent
  {
    var a := args[i];
    assert "--user=" == "--user" + "=";
    assert StartsWith(a, "--user=") <==> StartsWith(a, "--user") && |a| > 6 && a[6] == '=' by {
      if StartsWith(a, "--user=") {
        assert a[..6] == a[..7][..6];
        assert a[6] == a[..7][6];
      }
      if StartsWith(a, "--user") && |a| > 6 && a[6] == '=' {
        assert a[..7] == a[..6] + [a[6]];
      }
    }
    assert StartsWith(a, "-u") ==> a[..2][1] == a[1] == 'u';
    assert StartsWith(a, "--user") ==> a[..6][1] == a[1] == '-';
    assert StartsWith(a, "-u") && |a| == 2 <==> a == "-u";
    assert StartsWith(a, "--user") && |a| == 6 <==> a == "--user";
  }

  lemma PasswordByRest(args: seq<Arg>, i: nat)
    requires i < |args|
    ensures var a := args[i];
            PasswordAt(args, i) ==
            if StartsWith(a, "-p") then (if |a| > 2 then Value(a[2..], i + 1) else Prompt(i + 1))
            else if StartsWith(a, "--password") && |a| == 10 then Prompt(i + 1)
            else if StartsWith(a, "--password") && a[10] == '=' then Value(a[11..], i + 1)
            else Absent
  {
    var a := args[i];
    assert "--password=" == "--password" + "=";
    assert StartsWith(a, "--password=") <==> StartsWith(a, "--password") && |a| > 10 && a[10] == '=' by {
      if StartsWith(a, "--password=") {
        assert a[..10] == a[..11][..10];
        assert a[10] == a[..11][10];
      }
      if StartsWith(a, "--password") && |a| > 10 && a[10] == '=' {
        assert a[..11] == a[..10] + [a[10]];
      }
    }
    assert StartsWith(a, "-p") ==> a[..2][1] == a[1] == 'p';
    assert StartsWith(a, "--password") ==> a[..10][1] == a[1] == '-';
    assert StartsWith(a, "-p") && |a| == 2 <==> a == "-p";
    assert StartsWith(a, "--password") && |a| == 10 <==> a == "--password";
  }

  method FindUser(args: seq<Arg>, i: nat) returns (f: Found)
    requires i < |args|
    ensures f == UserAt(args, i)
  {
    var a := args[i];
    UserByRest(args, i);
    assert "--" + "user" == "--user";
    var rest := OptionRest(a, 'u', "user");
    if rest.None? {
      return Absent;
    }
    if rest.value < |a| {
      return Value(if rest.value == 2 then a[2..] else a[rest.value + 1..], i + 1);
    }
    return if i + 1 == |args| then Missing else Value(args[i + 1], i + 2);
  }

  method FindPassword(args: seq<Arg>, i: nat) returns (f: Found)
    requires i < |args|
    ensures f == PasswordAt(args, i)
  {
    var a := args[i];
    PasswordByRest(args, i);
    assert "--" + "password" == "--password";
    var rest := OptionRest(a, 'p', "password");
    if rest.None? {
      return Absent;
    }
    if rest.value < |a| {
      return Value(if rest.value == 2 then a[2..] else a[rest.value + 1..], i + 1);
    }
    return Prompt(i + 1);
  }

  /** execute_parse_user: the option may be missing, a name behind it may not. */
  method ParseUser(args: seq<Arg>, i: nat) returns (r: Option<(Option<Arg>, nat)>)
    ensures r == UserFrom(args, i)
  {
    if i >= |args| {
      return None;
    }
    var f := FindUser(args, i);
    r := Resolve(f, i, |args|, None);
  }

  /** execute_parse_pwd. */
  method ParsePassword(args: seq<Arg>, i: nat, prompt: Option<Arg>) returns (r: Option<(Option<Arg>, nat)>)
    ensures r == PasswordFrom(args, i, prompt)
  {
    if i >= |args| {
      return None;
    }
    var f := FindPassword(args, i);
    r := Resolve(f, i, |args|, prompt);
  }

  /** execute_parse_credentials with its four first-flag helpers. */
  method ParseCredentials(args: seq<Arg>, prompt: Option<Arg>) returns (r: Option<(Credentials, nat)>)
    requires args != []
    ensures r == CredentialsOf(args, prompt)
  {
    var first := FindUser(args, 0);
    if !first.Absent? {
      var user := Resolve(first, 0, |args|, None);
      if user.None? {
        return None;
      }
      var password := ParsePassword(args, user.value.1, prompt);
      if password.None? {
        return None;
      }
      return Some((Credentials(user.value.0, password.value.0), password.value.1));
    }
    first := FindPassword(args, 0);
    if first.Absent? {
      return Some((Credentials(None, None), 0));
    }
    var password := Resolve(first, 0, |args|, prompt);
    if password.None? {
      return None;
    }
    var user := ParseUser(args, password.value.1);
    if user.None? {
      return None;
    }
    return Some((Credentials(user.value.0, password.value.0), user.value.1));
  }

  // ---------- database names ----------

  /** struct String: the bytes and their count. */
  datatype Name = Name(bytes: Arg, length: nat)

  /** The valid ones, in order, with their lengths. */
  function ValidNames(names: seq<Arg>): seq<Name> {
    if names == [] then []
    else
      var last := names[|names| - 1];
      ValidNames(names[..|names| - 1]) + if IsName(last) then [Name(last, |last|)] else []
  }

  lemma {:induction false} ValidNamesAreFew(names: seq<Arg>)
    ensures |ValidNames(names)| <= |names|
    ensures |ValidNames(names)| == |names| <==> forall a <- names :: IsName(a)
    decreases |names|
  {
    if names != [] {
      ValidNamesAreFew(names[..|names| - 1]);
      assert names == names[..|names| - 1] + [names[|names| - 1]];
    }
  }

  lemma ValidNamesSnoc(names: seq<Arg>, i: nat)
    requires i < |names|
    ensures ValidNames(names[..i + 1]) == ValidNames(names[..i]) + if IsName(names[i]) then [Name(names[i], |names[i]|)] else []
  {
    assert names[..i + 1][..i] == names[..i];
  }

  /** execute_parse_db_names_recover: goes on filling `dbNames` at `until`, skipping what is invalid. */
  method ParseNamesRecover(dbNames: array<Name>, start: nat, names: seq<Arg>, first: nat) returns (until: nat)
    requires first <= |names| == dbNames.Length && start <= first && dbNames[..start] == ValidNames(names[..first])
    modifies dbNames
    ensures until <= dbNames.Length && dbNames[..until] == ValidNames(names)
  {
    until := start;
    var from := first;
    while from < |names|
      invariant until <= from <= |names| && dbNames[..until] == ValidNames(names[..from])
    {
      ValidNamesSnoc(names, from);
      var length := ParseName(names[from]);
      if length.Some? {
        dbNames[until] := Name(names[from], length.value);
        until := until + 1;
      }
      from := from + 1;
    }
    assert names[..from] == names;
  }

  /** execute_parse_db_names: `dbNames` has room for every name; the status is a failure exactly if
      one of them is invalid. */
  method ParseNames(dbNames: array<Name>, names: seq<Arg>) returns (until: nat, success: bool)
    requires names != [] && dbNames.Length == |names|
    modifies dbNames
    ensures until <= dbNames.Length && dbNames[..until] == ValidNames(names)
    ensures success <==> forall a <- names :: IsName(a)
  {
    var from := 0;
    while from < |names|
      invariant from <= |names| && dbNames[..from] == ValidNames(names[..from])
      invariant forall a <- names[..from] :: IsName(a)
    {
      ValidNamesSnoc(names, from);
      var length := ParseName(names[from]);
      if length.None? {
        until := ParseNamesRecover(dbNames, from, names, from + 1);
        return until, false;
      }
      dbNames[from] := Name(names[from], length.value);
      from := from + 1;
    }
    assert names[..from] == names;
    return from, true;
  }

  /** What mysql_seed_execute is given. */
  datatype Job = Job(credentials: Credentials, names: seq<Name>)

  /** execute_dispatch up to the call of mysql_seed_execute. */
  method ExecuteDispatch(args: seq<Arg>, prompt: Option<Arg>, hasMemory: bool) returns (success: bool, job: Option<Job>)
    ensures args == [] || CredentialsOf(args, prompt).None? || !hasMemory ==> job.None? && !success
    ensures args != [] && CredentialsOf(args, prompt).Some? && hasMemory ==>
              var (credentials, i) := CredentialsOf(args, prompt).value;
              && i < |args|
              && (success <==> forall a <- args[i..] :: IsName(a))
              && job == if ValidNames(args[i..]) == [] then None else Some(Job(credentials, ValidNames(args[i..])))
  {
    if args == [] {
      return false, None;
    }
    var parsed := ParseCredentials(args, prompt);
    if parsed.None? || !hasMemory {
      return false, None;
    }
    NamesRemain(args, prompt);
    var names := args[parsed.value.1..];
    var junk: Name := *;
    var dbNames := new Name[|names|](_ => junk);
    var until;
    until, success := ParseNames(dbNames, names);
    job := if until > 0 then Some(Job(parsed.value.0, dbNames[..until])) else None;
  }

  // ---------- both modes ----------

  function NamesOf(ds: seq<Db>): (names: seq<Arg>)
    ensures |names| == |ds| && forall i :: 0 <= i < |ds| ==> names[i] == ds[i].name
  {
    seq(|ds|, i requires 0 <= i < |ds| => ds[i].name)
  }

  /** Execute mode takes the name of every database that generate mode accepts, and in full. */
  lemma {:induction false} GeneratedNamesExecute(args: seq<Arg>)
    ensures var names := NamesOf(Run(LexAll(args)).dbs);
            && |ValidNames(names)| == |names|
            && forall i :: 0 <= i < |names| ==>
                 ValidNames(names)[i] == Name(names[i], |names[i]|) && |names[i]| <= 4 * NAME_LENGTH_MAX
  {
    AcceptedAreWellFormed(args);
    var ds := Run(LexAll(args)).dbs;
    var names := NamesOf(ds);
    forall a <- names ensures IsName(a) {
      var i :| 0 <= i < |names| && names[i] == a;
      assert DbOk(ds[i]);
    }
    AllValid(names);
    forall i | 0 <= i < |names| ensures |names[i]| <= 4 * NAME_LENGTH_MAX {
      NamesAreShortUtf8(names[i]);
    }
  }

  lemma {:induction false} AllValid(names: seq<Arg>)
    requires forall a <- names :: IsName(a)
    ensures |ValidNames(names)| == |names| && forall i :: 0 <= i < |names| ==> ValidNames(names)[i] == Name(names[i], |names[i]|)
    decreases |names|
  {
    if names != [] {
      AllValid(names[..|names| - 1]);
    }
  }
}
