/** The specifications a generate command line describes: databases, tables, columns, JOIN
    members and groups. */
module Specs {
  import opened Octets
  import opened Numbers

  datatype Sign = Signed | Unsigned

  datatype Clock = Timestamp | Datetime

  /** COL_TYPE with its COL_TYPE_Q. */
  datatype Kind =
    | IntDefault(sign: Sign)
    | IntUnique(sign: Sign)
    | IntFixed(sign: Sign, value: int)
    | IntRandom(sign: Sign)
    | IntFrom(sign: Sign, low: int)
    | IntUpto(sign: Sign, high: int)
    | IntRange(sign: Sign, low: int, high: int)
    | StrDefault
    | StrUnique(base: Arg)
    | StrFixed(text: Arg)
    | StrUuid
    | StrHash(length: nat)
    | StrNamesFirst
    | StrNamesLast
    | StrNamesFull
    | TimeDefault(clock: Clock)
    | TimeUnique(clock: Clock)
    | TimeFixed(clock: Clock)

  datatype Part = Even | Linear

  datatype Grp = Grp(count: nat, part: Part)

  /** What follows COL_NAME, and equally one JOIN. */
  datatype Member = Member(kind: Kind, grp: Option<Grp>)

  datatype Body = Plain(member: Member) | Joined(members: seq<Member>)

  datatype Col = Col(name: Arg, body: Body)

  datatype Tbl = Tbl(name: Arg, rows: nat, cols: seq<Col>)

  datatype Db = Db(name: Arg, tbls: seq<Tbl>)

  /** Data that is the same in every row: it may not be grouped. */
  predicate IsFixedData(k: Kind) {
    k.IntFixed? || k.StrFixed? || k.TimeFixed?
  }

  predicate InRange(s: Sign, v: int) {
    if s.Signed? then INT64_MIN <= v <= INT64_MAX else 0 <= v <= UINT64_MAX
  }

  predicate KindOk(k: Kind) {
    match k
    case IntFixed(s, v) => InRange(s, v)
    case IntFrom(s, low) => InRange(s, low)
    case IntUpto(s, high) => InRange(s, high)
    case IntRange(s, low, high) => InRange(s, low) && InRange(s, high) && low <= high
    case StrUnique(base) => IsBaseString(base)
    case StrFixed(text) => IsFixedString(text)
    case StrHash(length) => 1 <= length <= HASH_LENGTH_MAX
    case _ => true
  }

  predicate MemberOk(m: Member, rows: nat) {
    && KindOk(m.kind)
    && (m.grp.Some? ==> !IsFixedData(m.kind) && 1 <= m.grp.value.count <= rows)
  }

  ghost function OkMember(rows: nat): Member -> bool {
    (m: Member) => MemberOk(m, rows)
  }

  predicate BodyOk(b: Body, rows: nat) {
    match b
    case Plain(m) => MemberOk(m, rows)
    case Joined(ms) => ms != [] && forall m <- ms :: MemberOk(m, rows)
  }

  predicate ColOk(c: Col, rows: nat) {
    IsName(c.name) && BodyOk(c.body, rows)
  }

  predicate TblOk(t: Tbl) {
    IsName(t.name) && 1 <= t.rows <= UPTO_MAX && t.cols != [] && forall c <- t.cols :: ColOk(c, t.rows)
  }

  predicate DbOk(d: Db) {
    IsName(d.name) && d.tbls != [] && forall t <- d.tbls :: TblOk(t)
  }
}
