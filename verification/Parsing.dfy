/** Results of the grammar's parsers and the repetition they are built from. */
module Parsing {

  /** `Bad` tells where the search for the next DB_SPEC starts; `Stop` ends the whole parse. */
  datatype Parse<+T> = Ok(value: T, at: nat) | Bad(at: nat) | Stop {
    predicate IsFailure() { !Ok? }

    function PropagateFailure<U>(): Parse<U>
      requires IsFailure()
    {
      if Bad? then Bad(at) else Stop
    }

    function Extract(): (T, nat)
      requires !IsFailure()
    {
      (value, at)
    }
  }

  /** The parse moved forward and stayed within `n` arguments. */
  predicate Forward<T>(r: Parse<T>, from: nat, n: nat) {
    match r
    case Ok(_, at) => from <= at <= n
    case Bad(at) => from <= at <= n
    case Stop => true
  }

  type Parser<T> = nat -> Parse<T>

  ghost predicate Advances<T>(item: Parser<T>, n: nat) {
    forall i: nat {:trigger item(i)} :: i < n ==> Forward(item(i), i, n) && (item(i).Ok? ==> i < item(i).at)
  }

  /** Items from `j` on, as long as one starts; `done` are those before. */
  function Many<T>(item: Parser<T>, starts: nat -> bool, n: nat, done: seq<T>, j: nat): (r: Parse<seq<T>>)
    requires Advances(item, n) && j <= n
    ensures Forward(r, j, n)
    decreases n - j
  {
    if j == n || !starts(j) then Ok(done, j)
    else
      match item(j)
      case Ok(x, at) => Many(item, starts, n, done + [x], at)
      case Bad(at) => Bad(at)
      case Stop => Stop
  }

  /** Positions `j` to `end` spell `xs`, one item after the other. */
  ghost predicate ManySpelled<T>(spells: (nat, nat, T) -> bool, starts: nat -> bool, n: nat, j: nat, end: nat, xs: seq<T>)
    decreases |xs|
  {
    if xs == [] then j == end
    else
      && j < n && starts(j)
      && exists k: nat :: spells(j, k, xs[0]) && ManySpelled(spells, starts, n, k, end, xs[1..])
  }

  /** Whatever one item parses it spells, and it ends where `closed` holds. */
  ghost predicate ItemSound<T>(item: Parser<T>, spells: (nat, nat, T) -> bool, closed: nat -> bool, n: nat) {
    forall i: nat {:trigger item(i)} ::
      i < n && item(i).Ok? ==> spells(i, item(i).at, item(i).value) && closed(item(i).at)
  }

  /** Whatever an item spells up to a position where `closed` holds, it parses. */
  ghost predicate ItemComplete<T(!new)>(item: Parser<T>, spells: (nat, nat, T) -> bool, closed: nat -> bool, n: nat) {
    forall i: nat, k: nat, x: T {:trigger spells(i, k, x)} ::
      i < n && spells(i, k, x) ==> k <= n && (closed(k) ==> item(i) == Ok(x, k))
  }

  lemma {:induction false} ManySound<T>(item: Parser<T>, starts: nat -> bool, spells: (nat, nat, T) -> bool,
                                        closed: nat -> bool, n: nat, done: seq<T>, j: nat) returns (rest: seq<T>)
    requires Advances(item, n) && ItemSound(item, spells, closed, n)
    requires j <= n && closed(j) && Many(item, starts, n, done, j).Ok?
    ensures var Ok(xs, end) := Many(item, starts, n, done, j);
            && xs == done + rest && ManySpelled(spells, starts, n, j, end, rest)
            && closed(end) && (end == n || !starts(end))
    decreases n - j
  {
    if j == n || !starts(j) {
      rest := [];
    } else {
      var x, at := item(j).value, item(j).at;
      var tail := ManySound(item, starts, spells, closed, n, done + [x], at);
      rest := [x] + tail;
      assert rest[1..] == tail;
    }
  }

  lemma {:induction false} ManyComplete<T(!new)>(item: Parser<T>, starts: nat -> bool, spells: (nat, nat, T) -> bool,
                                                 closed: nat -> bool, n: nat, done: seq<T>, j: nat, end: nat, xs: seq<T>)
    requires Advances(item, n) && ItemComplete(item, spells, closed, n)
    requires forall i: nat {:trigger starts(i)} :: i < n && starts(i) ==> closed(i)
    requires j <= n && end <= n && ManySpelled(spells, starts, n, j, end, xs)
    requires closed(end) && (end == n || !starts(end))
    ensures Many(item, starts, n, done, j) == Ok(done + xs, end) && closed(j)
    decreases |xs|
  {
    if xs == [] {
      assert done + xs == done;
    } else {
      var k: nat :| spells(j, k, xs[0]) && ManySpelled(spells, starts, n, k, end, xs[1..]);
      ManyComplete(item, starts, spells, closed, n, done + [xs[0]], k, end, xs[1..]);
      assert done + [xs[0]] + xs[1..] == done + xs;
    }
  }

  lemma {:induction false} ManyInRange<T>(spells: (nat, nat, T) -> bool, starts: nat -> bool, n: nat, j: nat, end: nat,
                                          xs: seq<T>)
    requires j <= n && ManySpelled(spells, starts, n, j, end, xs)
    requires forall i: nat, k: nat, x: T {:trigger spells(i, k, x)} :: spells(i, k, x) ==> i < k <= n
    ensures j <= end <= n
    decreases |xs|
  {
    if xs != [] {
      var k: nat :| spells(j, k, xs[0]) && ManySpelled(spells, starts, n, k, end, xs[1..]);
      ManyInRange(spells, starts, n, k, end, xs[1..]);
    }
  }
}
