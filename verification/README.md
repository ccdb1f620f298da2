# Verified model of mysql-seed's command-line core

`mysql_seed generate` reads a command line of the shape

    DB_SPEC := <-d|--database> DB_NAME TBL_SPEC+
    TBL_SPEC := <-t|--table> TBL_NAME ROW_COUNT COL_SPEC+
    COL_SPEC := <-c|--column> COL_NAME COL_TYPE [COL_TYPE_Q] [GRP_SPEC]

and packs what it describes into one allocation of linked `DbSpec`, `TblSpec` and `ColSpec` records.
The parser is a machine of mutually calling parse nodes that advance one cursor, write into the
shared allocation, skip a DB_SPEC that fails, reuse its memory and go on at the next database flag.
`mysql_seed execute` reads credentials in either order and then database names.

## How the model is laid out

| file | holds |
|---|---|
| `Octets`, `Encoding` | C strings, the UTF-8 scanner, the loops that check identifiers and column strings; the encoding of numbers that the scanner accepts |
| `Numbers` | the bounded integer parser, canonical decimal text, digit counts |
| `Flags` | spellings of the flags, the dispatchers, `flag_match` and its searches |
| `Specs`, `Tokens`, `Parsing` | the specifications as values, what is read off one argument, parse results and repetition |
| `Members`, `Grammar` | the grammar as a pure recursive parser, with the recovery, up to `Run` |
| `BodySpelling`, `Spelling`, `WellFormed`, `Printer` | the grammar as a relation between arguments and specifications, its equivalence with the pure parser, what accepted specifications satisfy, printing and the round trip |
| `Recovery`, `Departures` | an acceptor that takes one argument at a time, how a DB_SPEC fails and where the search goes on, what exactly a run accepts, and command lines on which it loses a whole DB_SPEC |
| `Random`, `Columns`, `Rendering`, `ColumnTypes`, `JoinCells`, `Resources` | spans and types of random integers, what the setters store, what a build function prints from that, how well the declared types fit it, the cells of a JOIN, which shared resources are used |
| `Groups`, `Building` | the partition of rows into groups, and whole columns as the build functions write them |
| `Divisions` | the command lines on which a setter divides by zero |
| `Counters`, `Heap`, `Structure` | the counters, the layout of the allocation with a reader that only follows pointers, the structure of JOINs and the totals |
| `Readback` | the specifications read back from what is stored |
| `Machine`, `Generate` | the parser as it runs: a class over an array, held against the grammar; a whole generate run |
| `Execute` | credentials, database names, a whole execute run |

Four descriptions of `generate` are connected with one another. The class `Machine.GenerateParser`
changes its fields and its array step by step, as the C code does. The pure parser
`Grammar.Run` says what it should accept. The relation `Spelling.CommandLine` is a declarative
grammar that mentions no parser. `Printer` writes specifications back as arguments.
`Generate.GenerateDispatch` equates the first with the second on every command line
(on some of them the code divides by zero before it gets that far: see below),
`Spelling.CleanRunIffCommandLine` the second with the third, and `Printer.RoundTrip` goes from
the fourth to the second. `Readback.StoredIsRead` closes the circle: it gets the specifications back from
the memory that is handed over. Of a run that fails, `Recovery` says which DB_SPECs it accepts all the
same: its acceptor `Recovery.Walk` takes one argument at a time and names the one it refuses.

The memory bound is an invariant of the machine: `Heap.Bound(p)` is the number of bytes that the
arguments before `p` have paid for, two arguments for a ColSpec, and every parse node
keeps the end of what is written below it. `Machine.GenerateParser.Store`
is the only method that writes to the array. Its precondition is that every byte of the
record lies inside, so no write of a half-parsed or later discarded specification is left out; and
it frees all of these bytes but the first, so a record that overlapped another would destroy it.
Of the three record sizes only `0 < D`, `0 < T <= C` and `D + T <= 3C` is used.
A read of an argument is an index into a sequence, which Dafny accepts only in range, so the
seven advances without an end check are covered by the guard of eight arguments.
Termination is by the remaining arguments inside a DB_SPEC and by `Machine.Rank`
across DB_SPECs, where a second GRP_SPEC may leave the cursor at the end and the search for the
next database starts one beyond it.

## Where the code departs from its intent

The model does what the code does. Each departure below has a lemma that shows it on a concrete
input, or says exactly when the code does what it should.

- The span test is the wrong way round for unsigned ranges above 32 bits
  (`src/mysql_seed_generate.h:3650`, `:4038`): `Random.TruncatedRange`, `Random.TruncatedSpanWitness`.
- `column_integer_random_from_group` has no returns in its switch (`:8141-8171`):
  `Random.FallingFromIff`, `Random.FallThroughWitness`.
- Both of these can leave a span of 0, and the setter that stores it computes `RANDOM_THRESHOLD`
  (`src/random/random.h:27`) from it while it parses (`src/mysql_seed_generate.h:3321`, `:3371`,
  `:3652`, `:4040`): it divides by zero, and what the code does from there on is undefined. The
  model stores the zero span and goes on. `Random.ZeroSpanIff` says for which kinds this happens,
  `Divisions.DividedIff` for which accepted databases; `Divisions.DividingRangeWitness` and
  `Divisions.DividingMinimumWitness` are command lines on which it does.
- A difference of `UINT32_MAX` is taken for the full 32-bit type whatever the minimum is
  (`:8282-8293`, `:8660-8671` and their twins): `Random.FullRangeIff`, `Random.ShiftedRangeWitness`.
- For a 32-bit signed maximum the threshold is computed from a 64-bit span: values are
  left out, or unevenly likely: `Random.MixedUptoIff`, `Random.WrongThresholdWitness`.
- A database flag is passed over by the recovery if it stands where the parser has just failed, or
  right behind the flag of a second GRP_SPEC (`:4265-4271`), because the search starts one behind the
  cursor: `Recovery.ResumesIff`, `Departures.RefusedFlagWitness`, `Departures.SecondGroupWitness`.
- A maximum below the minimum ends the run instead of skipping the DB_SPEC (`:1196-1202`), as do
  arguments that run out: `Recovery.VerdictIff`, `Departures.ReversedRangeWitness`.
- `join_string_default_group` selects the ungrouped builder (`:5816`): cells may be longer than the
  column (`JoinCells.JoinFitsIff`, `JoinCells.OverlongCellWitness`), and the counter of the run may be
  too short for them (`Resources.PreparedIff`, `Resources.UnpreparedWitness`).
- A JOIN is promised to be CHAR when its length is constant and at most 255 (`README.md:339`), but a
  counter or random integer makes it VARCHAR even if it always prints equally long:
  `JoinCells.EvenVarcharIff`, `JoinCells.EvenVarcharWitness`.
- The length of fixed text is limited in code points and declared in octets, terminator included, so
  a CHAR may be declared longer than 255: `Rendering.PlainTypeIsLegalIff`, `Rendering.IllegalCharWitness`.
  The total of a JOIN is not limited at all: `JoinCells.JoinsAreLegalIff`.
- `flag_match` also accepts `-d-database` (`src/mysql_seed_file.h:596-610`), which no dispatcher
  does: `Flags.MixedOnlyMatches`. So the flag of the first DB_SPEC, of one after an error, of the
  first table and of the first column of a table has a third spelling, and no other flag does.

- Of 3 rows in two linear groups the first group is the larger one, although linear groups are promised
  to grow (`README.md:233`): the leftover rows go to the front (`src/generate/group.c:45-52`):
  `Groups.LinearShape`, `Groups.LinearShrinksWitness`.
- Unique times are promised to be a second apart (`README.md:313`), but the clock does not tick from one
  row block to the next (`src/generate/column_timestamp.c:149-155`): `Building.TimesRepeatIff`,
  `Building.RepeatedTimeWitness`.
- Nothing that is stored tells some JOINs of one member from plain columns: `Readback.ShortJoinIff`.

Some more are harmless: they are in the model, and the theorems named hold with them.

- `column_u_integer_random_upto_group` sets `width_max` one too large for `UINT32_MAX` (`:8615`), in
  `Random.PlanOf`: `Random.ProducedFits`.
- `column_u_integer_default_group` uses the signed builder, an unsigned fixed 0 gets a signed
  TINYINT, a fixed integer in a JOIN and fixed text of a plain column count the terminator, in
  `Columns.BuildOf`, `Columns.PlainType` and `Columns.JoinLength`: `Rendering.PlainColumnFits`,
  `JoinCells.JoinFitsIff`.

## Model

| member | source | states |
|---|---|---|
| Octets.ScanWidth | src/string/utf8_utils.h:69-89 | the loop returns the width of the code point at an offset and 0 iff none starts there, never reading past the terminator |
| Octets.WidthIsUnique | src/string/utf8_utils.h:48-89 | if some stretch at an offset is a leading octet with the continuation octets it announces, its length is what `utf8_width` returns: no other width is possible |
| Octets.CountIffSpells | src/string/utf8_utils.h:69-89 | counting left to right gives `n` iff the octets can be split into `n` code points in any way at all |
| Octets.OctetsPerCodePoint | src/string/utf8_utils.h:69-89 | `n` code points take `n` to `4n` octets |
| Octets.NamesAreShortUtf8 | src/mysql_seed_generate.h:2737-2863 | identifiers are exactly the strings that split into 1 to 63 code points, and they need 1 to 252 octets |
| Octets.ParseName | src/mysql_seed_generate.h:2737-2863 | the scanning loop accepts exactly those strings and returns their full byte length, for generate and execute mode alike |
| Octets.ParseText | src/mysql_seed_generate.h:2866-2942 | the loop that tests for the terminator first accepts exactly the strings of 0 to `max - 1` code points |
| Encoding.EncodingIsScanned | src/string/utf8_utils.h:48-89 | in front of anything and behind anything, the octets that arithmetic gives for a number below 2^7, 2^11, 2^16 or 2^21, six bits to each octet behind the first, are scanned as one code point of one, two, three or four octets |
| Encoding.ScannedIsEncoding | src/string/utf8_utils.h:48-89 | conversely, whatever is scanned as a code point is that encoding of the number a decoder reads off it |
| Encoding.TextsAreEncoded | src/mysql_seed_generate.h:2737-2863 | identifiers, base strings and fixed strings are exactly the encodings of 1 to 63, 0 to 246 and 0 to 254 such numbers |
| Encoding.EncodedNames | src/mysql_seed_generate.h:2737-2863 | any 1 to 63 numbers below 2^21, each in its shortest encoding, are an identifier |
| Numbers.StringCompare | src/string/string_utils.h:1992-2012 | the loop computes the difference of the first chars that differ, with plain char signed or unsigned, 0 for equal strings |
| Numbers.CompareIsNumeric | src/string/string_utils.h:1992-2012 | on numerals of equal length that difference is positive iff the first number is the greater one, whether plain char is signed or not |
| Numbers.UintDigitCountIsLength | src/string/string_utils.h:122-219 | the decision tree over powers of ten gives the length of the canonical decimal text, for every 64-bit number |
| Numbers.ValueDecimal | src/string/string_utils.h:2096-2165 | the positional value of the canonical text of `n` is `n` |
| Numbers.CountsAreLimited | src/mysql_seed_generate.h:2948-3025 | row counts are the numerals from 1 to 99999999, hash lengths those from 1 to 255, group counts those from 1 to the row count |
| Numbers.DecimalValue | src/string/string_utils.h:2096-2165 | a numeral without leading zeros is the canonical text of its value |
| Numbers.SkipZeros | src/string/string_utils.h:2096-2165 | skipping leading zeros keeps the value, and tells a numeral of zeros from an empty one |
| Numbers.CountDigits | src/string/string_utils.h:2096-2165 | the digit count, with the textual comparison against the maximum, is found iff the rest is a numeral of at most the maximum |
| Numbers.SumDigits | src/string/string_utils.h:2096-2165 | the backward sum over growing powers of ten is the positional value |
| Numbers.DoParseUint | src/string/string_utils.h:2096-2165 | a number comes back iff the octets are nonempty, all digits, and denote at most the maximum, and it is the one they denote, without any intermediate overflow test |
| Numbers.ParseUnsigned | src/string/string_utils.h:2240-2261 | the same for the range 0 to 2^64 - 1 |
| Numbers.ParseSigned | src/string/string_utils.h:2263-2298 | the same for an optional minus sign and the range -2^63 to 2^63 - 1 |
| Numbers.ParseIntText | src/string/string_utils.h:2263-2298 | parsing the printed form of any 64-bit signed number gives it back |
| Numbers.SkipLeadingZeros | src/mysql_seed_generate.h:9410-9467 | of a numeral that is not zero, what is left behind the leading zeros is its canonical text |
| Numbers.KeepFixedInteger | src/mysql_seed_generate.h:9119-9467 | rewriting the argument in place leaves, from the offset kept, exactly the canonical text of the parsed number, signed or unsigned, and changes no other octet |
| Columns.KeptTextIsBase | src/mysql_seed_generate.h:9119-9467 | that text is what a fixed integer starts from, and has at most 20 characters |
| Flags.StringsEqual | src/string/string_utils.h:2014-2028 | true iff the strings are the same |
| Flags.DispatchIsWord | src/mysql_seed_generate.h:4117-4213 | the two-level switch of a dispatcher accepts exactly the short and the long spelling of a flag, and so does the word it is classified as |
| Flags.FlagMatch | src/mysql_seed_file.h:585-611 | accepts exactly `-s`, `--long` and `-s-long` |
| Flags.MatchIsWord | src/mysql_seed_file.h:585-611 | the same three spellings are those of the classified word |
| Flags.MixedOnlyMatches | src/mysql_seed_generate.h:2693-2732 | `-d-database`, `-t-table` and `-c-column` are taken by `flag_match` and by no dispatcher |
| Flags.SpecFlagMatch | src/mysql_seed_generate.h:2693-2732 | the three matchers agree with the word an argument is classified as |
| Flags.ScanWord | src/mysql_seed_generate.h:4117-4213 | the two-level switches of all dispatchers together, one comparison after the other, find the word |
| Flags.FlagMatchNext | src/mysql_seed_file.h:630-646 | the leftmost match at or behind the start, or the end; also when the start already lies beyond the end |
| Flags.FlagMatchCount | src/mysql_seed_file.h:613-628 | the number of arguments that match |
| Flags.FlagNext | src/mysql_seed_file.h:575-583 | the leftmost argument with a leading dash, or the end |
| Tokens.Scan | src/mysql_seed_generate.h:2737-3025 | everything the parser can read off one argument, computed by the scanning loops and the switches |
| BodySpelling.MemberSound | src/mysql_seed_generate.h:10002-11001 | whatever the parser of one COL_TYPE with qualifier and GRP_SPEC accepts is spelled by the arguments it consumed, and ends where it may |
| BodySpelling.MemberComplete | src/mysql_seed_generate.h:10002-11001 | conversely, whatever is spelled up to a place where a column or JOIN may end is accepted with just that meaning |
| BodySpelling.BodySound | src/mysql_seed_generate.h:7828-7960 | the same for a whole column body, JOIN_SPECs of any length included |
| BodySpelling.BodyComplete | src/mysql_seed_generate.h:7828-7960 | and conversely |
| Spelling.TblsAgree | src/mysql_seed_generate.h:11003-11185 | the parser of TBL_SPECs is sound and complete for the declarative grammar, given one for bodies |
| Spelling.ConcreteDbsAgree | src/mysql_seed_generate.h:11191-11225 | the parser of DB_SPECs is sound and complete for the declarative grammar |
| Spelling.CleanRunIffCommandLine | README.md:211-235 | for every command line: the run ends with success and accepts the databases `ds` iff the command line is a concatenation of DB_SPECs that spell `ds`; the code gets there unless a setter divides by zero on the way, which it does iff `Divisions.RunDivides(ds)` |
| Spelling.SpellingIsUnambiguous | README.md:211-235 | no command line has two readings |
| Spelling.FailureIsFinal | src/mysql_seed_generate.h:11228-11240 | once an error has been met no continuation makes the run a success |
| WellFormed.MemberIsOk | src/mysql_seed_generate.h:3000-3025 | an accepted member has 1 to row-count groups and never groups on fixed data; its values are in range |
| WellFormed.AcceptedAreWellFormed | src/mysql_seed_generate.h:2737-3025 | for every command line, whatever fails elsewhere in it, every accepted database is well-formed: names, strings, numbers, ordered ranges, row counts, group counts |
| WellFormed.AcceptedAreSpelled | src/mysql_seed_generate.h:11228-11240 | for every command line the accepted databases are spelled, in order, by disjoint stretches of arguments, each from a database flag to the next or to the end |
| Grammar.NextDatabaseIsFirst | src/mysql_seed_file.h:630-646 | the search of the recovery finds the first database flag and skips none |
| Recovery.VerdictIff | src/mysql_seed_generate.h:11003-11240 | for every DB_SPEC, against an acceptor that takes one argument at a time: the run ends iff fewer than eight arguments are left, they run out inside, or a maximum is below its minimum; the DB_SPEC fails iff any other argument is refused, with the cursor there or behind the flag of a second GRP_SPEC; otherwise it is accepted to its end |
| Recovery.ResumesIff | src/mysql_seed_generate.h:11228-11240 | after a failure the search goes on at the first database flag not consumed iff no such flag stands at the refused argument, or right behind the flag of a second GRP_SPEC |
| Recovery.AcceptedAreHarvested | src/mysql_seed_generate.h:11204-11250 | for every command line the accepted databases are all the spelled DB_SPECs that begin where the search arrives, and no others |
| Departures.RefusedFlagWitness | src/mysql_seed_generate.h:11228-11240 | `-d A -t T 5 -d B -t U 5 -c X -i` accepts nothing, though its last eight arguments are a whole DB_SPEC |
| Departures.SecondGroupWitness | src/mysql_seed_generate.h:4265-4271 | the same behind `-d A -t T 5 -c X -i -g 1 -g` |
| Departures.ReversedRangeWitness | src/mysql_seed_generate.h:1196-1202 | the same behind `-d A -t T 5 -c X -i -r -r 5 3` |
| Printer.TextsAreRead | src/string/string_utils.h:2263-2298 | each printed flag, number, name and string is read back as what it stands for |
| Printer.RoundTrip | README.md:333-339 | for every nonempty list of well-formed databases and every choice, made at each position anew, of short or long flags, of an explicit `-e` and of bare filler text: parsing the printed arguments gives back the list, with success; the code gets there unless a setter divides by zero on the way, which it does iff `Divisions.RunDivides(ds)` |
| Random.SpanningIsFair | src/random/random.h:113-150 | rejection below the threshold and remainder by the span: every value of the interval is produced, nothing else, and each from equally many words |
| Random.EvenlySpreadIff | src/random/random.h:113-150 | remainders are evenly spread over a stretch of words iff its length is a multiple of the span |
| Random.UnboundIsFair | src/random/random.h:95-105 | a full-width generator makes each value of its type from exactly one word |
| Random.RandomIsSoundIff | src/mysql_seed_generate.h:3306-3693 | for every qualifier and all bounds: the stored generator produces exactly the interval asked for iff `Sound` holds of the bounds, and with equal chances iff `Fair` does |
| Random.SignedFromIsPlain | src/mysql_seed_generate.h:8084-8127 | span and offset are the interval, nonzero and without truncation, for every signed minimum |
| Random.UptoIsPlain | src/mysql_seed_generate.h:8175-8218 | the same for every maximum that is not a 32-bit signed one |
| Random.SpannedRange | src/mysql_seed_generate.h:8267-8317 | the same for every range that meets `Sound` |
| Random.MixedUptoIff | src/mysql_seed_generate.h:3385-3454 | a 32-bit signed maximum: the threshold is computed from a 64-bit span; exact iff 2^64 mod span + span <= 2^32 |
| Random.FallingFromIff | src/mysql_seed_generate.h:8130-8172 | the grouped setter without returns: exact iff the minimum is neither that of INT nor that of BIGINT |
| Random.FullRangeIff | src/mysql_seed_generate.h:8267-8317 | a difference of 2^32 - 1 is taken for the whole 32-bit type: exact iff the minimum is its bottom |
| Random.TruncatedRange | src/mysql_seed_generate.h:3636-3693 | the span test the wrong way round: every unsigned range of more than 32 bits loses values |
| Random.TruncatedSpanWitness | src/mysql_seed_generate.h:3636-3693 | `-u -r -r 0 4294967296` only ever produces 0 |
| Random.ShiftedRangeWitness | src/mysql_seed_generate.h:8267-8317 | `-i -r -r 0 4294967295` produces -2147483648 |
| Random.ZeroSpanIff | src/mysql_seed_generate.h:3306-4081 | for every qualifier and all bounds: the setter evaluates `RANDOM_THRESHOLD` with span 0, and so divides by zero while it parses, iff the kind is a signed minimum of a grouped plain column at the bottom of INT or BIGINT, or an unsigned range above 32 bits, short of 64, whose size is a multiple of 2^32 |
| Random.FallThroughWitness | src/mysql_seed_generate.h:8130-8172 | the setter of `-i -r -f -2147483648 -g N` divides by zero; the one for no groups takes the whole of INT |
| Divisions.DividedIff | src/mysql_seed_generate.h:8043-8748 | some setter of the accepted databases has divided by zero iff some column or JOIN member of theirs has a kind that divides |
| Divisions.DividingRangeWitness | src/mysql_seed_generate.h:3636-3693 | `-d N -t N 5 -c N -u -r -r 0 8589934591`, in every style, is accepted by the grammar and divides by zero |
| Divisions.DividingMinimumWitness | src/mysql_seed_generate.h:8130-8172 | `-d N -t N 5 -c N -i -r -f -2147483648 -g 1` likewise |
| Random.WrongThresholdWitness | src/mysql_seed_generate.h:3385-3454 | `-i -r -u 2147483642` never produces -2147483643 |
| Random.ProducedFits | src/mysql_seed_generate.h:3306-4081 | whatever a generator produces, sound or not, is a value of the declared type and prints with its sign in at most `width_max - 1` characters and in what a JOIN adds |
| Random.EndsAreMade | src/mysql_seed_generate.h:8043-8748 | of every generator that is ever stored, sound or not: the least and the greatest value it makes, or that it makes none |
| Random.EvenIff | src/mysql_seed_generate.h:8043-8748 | everything it makes prints equally long iff its ends do and are of one sign |
| Random.TypeIsNarrowest | src/mysql_seed_generate.h:3190-3257 | the type chosen for a value holds it and no narrower type of that signedness does |
| Random.TypeHoldsAllBelow | src/mysql_seed_generate.h:3259-3303 | the type chosen for a count holds every number counted |
| Random.PlanRanges | src/mysql_seed_generate.h:8043-8748 | the type declared for a random integer, whatever its generator does: INT if that holds the interval asked for, or if both ends are given and the interval is of its size, and BIGINT otherwise, of the sign asked for |
| Random.PlanReserves | src/mysql_seed_generate.h:3306-4081 | a JOIN reserves for a random integer exactly the characters of the widest text of that type, one less for a signed BIGINT from the bottom of INT on; `width_max` is one more, or two in the one setter that counts the terminator twice |
| Rendering.PlainColumnFits | src/mysql_seed_generate.h:7968-9085 | every cell that the build function of a stored plain column can print fits the type declared for it: the bound from above that goes with `ColumnTypes` |
| ColumnTypes.CounterTypeIsNarrowest | src/mysql_seed_generate.h:7968-8404 | of the types of its sign, none with fewer bits than the declared one holds every cell that a counter or fixed integer prints; the exception, an unsigned fixed 0, is declared TINYINT |
| ColumnTypes.RandomTypeIs | src/mysql_seed_generate.h:8043-8748 | a random integer is declared with the type it ranges over, in groups or not |
| ColumnTypes.StringLengthIsAttained | src/mysql_seed_generate.h:8788-8984 | the declared length of a string column is that of its longest cell, or one more for fixed text |
| ColumnTypes.CharIff | src/mysql_seed_generate.h:8788-8984 | a string column is CHAR iff for its kind the cells are equally long in whatever table, column and group, and VARCHAR otherwise |
| ColumnTypes.MomentIff | src/mysql_seed_generate.h:9007-9085 | the type is TIMESTAMP iff the argument is `-ts` or `--timestamp`, and DATETIME iff it is `-dt` or `--datetime` |
| Rendering.PlainTypeIsLegalIff | src/mysql_seed_generate.h:8788-8984 | the type declared for an accepted plain column is one MySQL has iff the column is not fixed text of 255 octets or more |
| Rendering.IllegalCharWitness | src/mysql_seed_generate.h:8788-8797 | 254 code points of four octets are accepted, and declared CHAR(1017) |
| JoinCells.MemberTexts | src/mysql_seed_generate.h:4744-5941 | for every member the closed forms are right: `Longest` is the length of the longest text it prints, and `HasOneLength` says whether all its texts are equally long |
| JoinCells.LongestCellIsPrinted | src/mysql_seed_generate.h:4434-4457 | over any number of members, the longest cell is exactly as long as the longest texts together |
| JoinCells.JoinFitsIff | src/mysql_seed_generate.h:4434-4457 | every cell fits the declared length iff the longest texts of the members come to no more than it (or some member prints nothing) |
| JoinCells.MemberFitsIff | src/mysql_seed_generate.h:4744-5941 | what a setter adds is enough for all that the member prints iff the member is not a grouped default string whose row count has more digits than its group count: the bound from above that goes with `JoinCells.TotalIs` |
| JoinCells.MemberReserves | src/mysql_seed_generate.h:4744-5941 | what a setter adds is the length of the longest text and exactly this much: one for a fixed integer, less the digits that the group count of a default string lacks, and for a random integer what its widest text leaves of the type it ranges over |
| JoinCells.TotalIs | src/mysql_seed_generate.h:4434-4457 | the declared length of a JOIN is that of its longest cell and the sum of these differences, over any number of members |
| JoinCells.TightTotalIs | src/mysql_seed_generate.h:4434-4457 | without random and fixed integers and grouped default strings, the declared length is that of the longest cell |
| JoinCells.VariesIff | src/mysql_seed_generate.h:4744-5941 | a setter leaves CHAR alone iff its kind prints equally long texts in whatever table, column and group, and is no random integer |
| JoinCells.CharIffByKind | README.md:339-339 | a JOIN is CHAR iff at most 255 is reserved and every member prints equally long texts by kind and is no random integer; the type carries the length reserved |
| JoinCells.TightCharIff | README.md:339-339 | of the members that reserve no more than they print: CHAR iff they print equally long texts by kind and the longest cell has at most 255 octets |
| JoinCells.JoinFits | src/mysql_seed_generate.h:4434-4457 | without such members every cell fits, over any number of members |
| JoinCells.JoinsAreLegalIff | src/mysql_seed_generate.h:4434-4457 | every JOIN of n accepted members, in whatever table, is declared with a type that MySQL has iff n is at most 64; from 65 on fixed text of four-octet code points goes beyond VARCHAR(65535) |
| JoinCells.OverlongCellWitness | src/mysql_seed_generate.h:5807-5829 | `-s -j -s -g 1` in a table of 10 rows prints a cell longer than its column |
| JoinCells.CompensatedWitness | src/mysql_seed_generate.h:5807-5829 | with `+ -i -f 5` behind it every cell fits: the fixed integer reserves one character too many |
| JoinCells.EvenCellsIff | README.md:339-339 | the cells of a JOIN are all equally long iff no member is a name, a counter above 9, or a random integer whose ends print at different lengths or have different signs |
| JoinCells.CharIsEven | src/mysql_seed_generate.h:4444-4457 | a JOIN is CHAR only if all cells that its members can print are equally long, and at most 255 |
| JoinCells.EvenVarcharIff | src/mysql_seed_generate.h:4444-4457 | of the JOINs with cells of one length, exactly those are VARCHAR all the same that reserve more than 255 or have a counter or random integer |
| JoinCells.EvenVarcharWitness | src/mysql_seed_generate.h:4780-4796 | `-s -j -i -u` in a table of 9 rows prints cells of one character, in a VARCHAR(1) |
| Resources.AsksCoverUses | src/mysql_seed_generate.h:4744-5941 | what a setter asks for covers what the build function it stores goes on to use iff it is not for a grouped default string in a JOIN with fewer groups than rows |
| Resources.AsksAreUses | src/mysql_seed_generate.h:4744-5941 | what a setter asks for is what the build function it stores uses, neither less nor more, except for a grouped default string in a JOIN with fewer groups than rows, and for `-i -r -f -2147483648` in groups, whose setter asks for both random number generators |
| Resources.DbShareIsLeast | src/mysql_seed_generate.h:7968-9085 | on commit `counter_upto` is the maximum over all that the members ask for and `ctor_flags` holds exactly the flags some member asks for |
| Resources.RunShareIsLeast | src/generate/generate.h:130-146 | over the run the counter goes up to the maximum, and the constructors are exactly those, that some member of some accepted database asks for |
| Resources.RunHasConstructor | src/generate/generate.h:228-245 | the flags of a run select no empty entry of `GEN_CTOR_MAP`: the one for UUIDs never comes without the one for 32-bit random numbers |
| Resources.PreparedIff | src/generate/generate.h:354-368 | no build function of any accepted database lacks a resource iff, for every table with a grouped default string in a JOIN, some member of some accepted database asks for a count of at least its rows |
| Resources.UnpreparedWitness | src/mysql_seed_generate.h:5807-5829 | `-d D -t T 10 -c C -s -j -s -g 1` alone counts to 1 and goes on to build 10 strings; with `-d D -t T 10 -c C -i` in the same run nothing is lacking |
| Resources.SharesAreCommitted | src/generate/generate.h:130-146 | over the run the committed resources are the union and maximum over the accepted databases |
| Groups.SizesPartition | src/generate/group.c:12-88 | either partition of the rows gives as many groups as asked for, none of them empty, that hold every row once |
| Groups.EvenShape | README.md:233-233 | even groups never grow from one to the next, and differ by one row at most |
| Groups.LinearShape | README.md:233-233 | linear groups never shrink by more than one row |
| Groups.LinearShrinksWitness | src/generate/group.c:12-61 | but by one they may: 3 rows in two linear groups are 2 and 1, although steadily increasing sizes are promised |
| Groups.PartitionEven | src/generate/group.c:63-88 | the loops over the array leave exactly these sizes in it |
| Groups.PartitionLinear | src/generate/group.c:12-61 | the line is drawn, summed, and what it leaves is spread with the leftovers in front: the array then holds exactly these sizes |
| Groups.BlocksPartition | src/generate/generate.h:422-494 | the row blocks of a table hold every row once, and none is empty |
| Groups.BlocksAreFull | src/generate/generate.h:422-494 | every row block but the first is full |
| Groups.GroupOfIff | src/generate/group.c:12-88 | every row lies in exactly one group |
| Building.WritesIff | src/mysql_seed_generate.h:4744-9085 | for every kind, group and table, plain or in a JOIN: the columns that the stored build function may write, by its tag, stored generator, base text and partition, are exactly those that kind and group ask for |
| Building.RandomReads | src/mysql_seed_generate.h:8043-8748 | the build function that is stored reads the generator in the form and with the sign that the setter has stored it |
| Building.GroupedCells | README.md:233-233 | a column in groups has one text for all rows of a group, hence no more different cells than groups; the default strings of a JOIN are the exception |
| Building.FreeCellsIff | src/generate/column_string_uuid.c:8-205 | without a group a column of UUIDs, hashes, names or random integers takes any cells it prints, row by row; with one, exactly those that are equal within each group |
| Building.RandomCellsIff | src/generate/column_integer_random.c:21-224 | where the generator is exact, the columns of a random integer are exactly the choices from the interval asked for, by row or by group |
| Building.CountedCellsIff | src/generate/column_string.c:82-310 | a counted column is written iff every cell is the base and the number of the group, or of the row |
| Building.CountedCellsDiffer | src/generate/column_string.c:82-310 | two of its rows are equal iff they are in one group; without a group, and for the default strings of a JOIN, all rows differ |
| Building.TimeCellsShow | src/generate/column_timestamp.c:12-287 | every cell of a time column is in the format of the clock that its kind names |
| Building.FixedCellsAreEqual | src/generate/column_integer.c:10-77 | fixed data is one text in every row: the number or text asked for |
| Building.TicksStopIff | src/generate/column_timestamp.c:87-166 | an ungrouped time is that of the row before iff the row starts a row block, and else the next one |
| Building.TimesRepeatIff | README.md:313-313 | so the times of a table, promised to ascend, repeat iff it has more than one row block |
| Building.RepeatedTimeWitness | src/generate/generate.h:294-297 | as in a run with a single table of 8 rows |
| Building.CellIffPrints | src/generate/column_integer.c:10-264 | what `Rendering.Prints` says of a stored column is so: these texts, and no others, stand in some cell of some column that its build function may write |
| Building.BuilderSign | src/mysql_seed_generate.h:8390-8404 | counters and fixed integers get the build function of their sign, except the unsigned default in groups |
| Building.BuildUniqueGroup | src/generate/column_integer.c:129-264 | the loop over groups and row blocks writes the number of its group into every row, and every row block starts where it should |
| Building.BuildUniqueTimes | src/generate/column_timestamp.c:87-166 | the loop over row blocks ticks after every row but the last of a row block |
| Readback.StoredIsRead | src/mysql_seed_generate.h:4744-9085 | the specifications are read back from what the setters store, from names, row counts, kinds, groups with their partition, and base texts alone: every list of well-formed databases, with JOINs of one member read as plain columns |
| Readback.StoredIsReadIff | src/mysql_seed_generate.h:4744-9085 | exactly the lists without JOINs of one member are read back unchanged |
| Readback.ShortJoinIff | src/mysql_seed_generate.h:4434-4457 | a JOIN of one member and the plain column are stored alike in every field iff the member is a string, but neither fixed nor a default string in groups |
| Readback.PrintedIsRead | src/mysql_seed_generate.h:11253-11452 | printing well-formed databases in any style, parsing them and reading what is stored gives them back |
| Heap.AllocIsBound | src/mysql_seed_generate.h:11348-11367 | the closed formula of the allocation is the bound at the last argument, where two arguments pay for one ColSpec |
| Heap.BoundMonotone | src/mysql_seed_generate.h:11348-11367 | no argument lowers the bound |
| Heap.ColsJoin | src/mysql_seed_generate.h:11070-11096 | adjacent column intervals make one interval |
| Heap.NameFirst | src/mysql_seed_generate.h:4444-4457 | naming and typing the first ColSpec of a JOIN disturbs no other |
| Heap.DbsKept | src/mysql_seed_generate.h:11204-11225 | writes outside the bytes of the accepted databases leave their layout and links as they were |
| Heap.DbsRelinked | src/mysql_seed_generate.h:4092-4101 | setting the last link changes the link and nothing else |
| Heap.ChainIsRead | src/mysql_seed_generate.h:4092-4101 | a reader that only follows pointers visits exactly the accepted databases, in order, with all their tables and columns, and ends at NULL |
| Structure.ColumnsAreGroups | src/mysql_seed_generate.h:4434-4457 | splitting the ColSpecs of an accepted table at non-NULL names gives exactly the declared columns, a JOIN being its named base and then unnamed members |
| Structure.ColumnsAreCells | src/mysql_seed_generate.h:7933-7945 | the columns counted are the ColSpecs stored, JOIN members included |
| Structure.DbsTile | src/mysql_seed_generate.h:4086-4115 | the accepted databases fill the allocation from its first byte without gap or overlap |
| Structure.CountersAreTotals | src/generate/generate.h:130-158 | rows, largest row count, tables, columns and databases are the totals over the accepted databases and nothing else |
| Machine.GenerateParser.constructor | src/mysql_seed_generate.h:11253-11452 | the allocation by the closed formula and the state before the first argument |
| Machine.GenerateParser.Store | src/mysql_seed_generate.h:11348-11367 | every write to the allocation goes through this method: all its bytes lie inside, and whatever began at any of them is gone |
| Machine.GenerateParser.SetSpec | src/mysql_seed_generate.h:4744-9085 | a setter leaves ColSpec, accumulator and counters as the member determines, and touches nothing else; a JOIN setter clears the name; a zero span is stored where the code divides by it |
| Machine.GenerateParser.Close | src/mysql_seed_generate.h:4117-4213 | the closing flag, a first GRP_SPEC, a refused one on fixed data or a refused second one, against the grammar |
| Machine.GenerateParser.ParseGrpSpec | src/mysql_seed_generate.h:4273-4424 | GRP_COUNT against the row count of the table, then PART_TYPE |
| Machine.GenerateParser.ParsePartType | src/mysql_seed_generate.h:4573-4740 | even, linear or omitted, then only a closing flag |
| Machine.GenerateParser.Finish | src/mysql_seed_generate.h:4117-4570 | which of the three continuations a kind gets |
| Machine.GenerateParser.ParseIntegerFixed | src/mysql_seed_generate.h:9119-9196 | against the grammar, errors and end of arguments included |
| Machine.GenerateParser.ParseRandomFrom | src/mysql_seed_generate.h:9220-9256 | likewise |
| Machine.GenerateParser.ParseRandomUpto | src/mysql_seed_generate.h:9265-9301 | likewise |
| Machine.GenerateParser.ParseRandomRange | src/mysql_seed_generate.h:9311-9377 | likewise; a maximum below the minimum ends the whole run |
| Machine.GenerateParser.ParseRandom | src/mysql_seed_generate.h:9864-10000 | likewise |
| Machine.GenerateParser.ParseIntegerQualifier | src/mysql_seed_generate.h:10002-10138 | likewise |
| Machine.GenerateParser.ParseStringUnique | src/mysql_seed_generate.h:9656-9673 | likewise |
| Machine.GenerateParser.ParseText | src/mysql_seed_generate.h:9675-9692 | likewise |
| Machine.GenerateParser.ParseStringHash | src/mysql_seed_generate.h:9716-9736 | likewise |
| Machine.GenerateParser.ParseStringQualifier | src/mysql_seed_generate.h:10416-10657 | likewise |
| Machine.GenerateParser.ParseStringWord | src/mysql_seed_generate.h:10416-10657 | likewise, for the qualifiers without an argument |
| Machine.GenerateParser.ParseTimeQualifier | src/mysql_seed_generate.h:10659-10901 | likewise |
| Machine.GenerateParser.ParseColType | src/mysql_seed_generate.h:10905-11001 | likewise |
| Machine.GenerateParser.ParseJoin | src/mysql_seed_generate.h:7828-7930 | likewise; filler text unless the argument starts with a dash |
| Machine.GenerateParser.MoveToJoin | src/mysql_seed_generate.h:7933-7945 | room for one more ColSpec, paid for by the arguments behind the plus sign |
| Machine.GenerateParser.ParseNextJoin | src/mysql_seed_generate.h:7933-7945 | one more member: its ColSpec behind the others, length, counters and type so far |
| Machine.GenerateParser.InitJoin | src/mysql_seed_generate.h:4434-4442 | the name of the column is saved before the first setter clears it |
| Machine.GenerateParser.CloseJoin | src/mysql_seed_generate.h:4444-4457 | the saved name and the type of the whole return to the first member, the others stay unnamed |
| Machine.GenerateParser.ParseJoins | src/mysql_seed_generate.h:7933-7945 | members as long as plus signs follow, in order and without limit |
| Machine.GenerateParser.ParseJoinSpec | src/mysql_seed_generate.h:7948-7960 | a whole JOIN_SPEC: ColSpecs, bound, counters, resources |
| Machine.GenerateParser.ParseBody | src/mysql_seed_generate.h:10905-11001 | a whole column body against the grammar |
| Machine.GenerateParser.MoveToCol | src/mysql_seed_generate.h:11070-11096 | name and place of a further column, each advance behind its own end check |
| Machine.GenerateParser.ParseNextCol | src/mysql_seed_generate.h:11070-11096 | a further column behind the others, within the bound |
| Machine.GenerateParser.ParseCols | src/mysql_seed_generate.h:11070-11096 | columns as long as column flags follow |
| Machine.GenerateParser.CompleteTbl | src/mysql_seed_generate.h:4086-4090 | the end of the column interval |
| Machine.GenerateParser.BeginFirstCol | src/mysql_seed_generate.h:11003-11027 | three advances without an end check, in range by the guard on the whole DB_SPEC |
| Machine.GenerateParser.BeginFirstTbl | src/mysql_seed_generate.h:11100-11132 | six advances without an end check, in range by the same guard; the counters start with one table and one column |
| Machine.GenerateParser.BeginFirstRows | src/mysql_seed_generate.h:11100-11132 | its second half: row count, counters, and the heading of the first column, the database record linked to the table |
| Machine.GenerateParser.BeginCheckedCol | src/mysql_seed_generate.h:11030-11067 | the first column of a later table, with end checks and an explicit count |
| Machine.GenerateParser.LinkTbl | src/mysql_seed_generate.h:11135-11185 | the next table starts where the columns of the last one end |
| Machine.GenerateParser.EnterTbl | src/mysql_seed_generate.h:11135-11185 | name, row count and first column of a further table; what came before is untouched |
| Machine.GenerateParser.ParseNextTbl | src/mysql_seed_generate.h:11135-11185 | a further table, linked, complete and counted |
| Machine.GenerateParser.ParseTbls | src/mysql_seed_generate.h:11135-11185 | tables as long as table flags follow |
| Machine.GenerateParser.BeginDb | src/mysql_seed_generate.h:11191-11201 | the guard of eight arguments covers every advance up to the first COL_TYPE |
| Machine.GenerateParser.ParseDb | src/mysql_seed_generate.h:11191-11225 | one DB_SPEC of any shape, parsed into the bytes behind the accepted databases: none of their bytes, links or counters changes, and it ends as the grammar says |
| Machine.GenerateParser.LinkDb | src/mysql_seed_generate.h:4092-4101 | the tail-queue step as a function of the state |
| Machine.GenerateParser.Validate | src/mysql_seed_generate.h:4092-4101 | the chain grows by exactly this database, the counters by exactly its own |
| Machine.GenerateParser.AcceptDb | src/mysql_seed_generate.h:4103-4115 | commit: one more accepted database, and the next one starts where it ends |
| Machine.GenerateParser.JudgeDb | src/mysql_seed_generate.h:11204-11225 | commit or rollback: after a failure the accepted databases, links, counters and start of the next database are those before it |
| Machine.GenerateParser.ParseNextDb | src/mysql_seed_generate.h:11204-11225 | one turn of the run keeps its invariant and lowers its rank |
| Machine.GenerateParser.SkipToDatabase | src/mysql_seed_file.h:630-646 | the search for the next database flag, even from beyond the end |
| Machine.GenerateParser.Recover | src/mysql_seed_generate.h:11228-11240 | the failure is noted, nothing accepted changes, and the rank drops even if a second GRP_SPEC left the cursor at the end |
| Machine.GenerateParser.ParseDbs | src/mysql_seed_generate.h:11191-11240 | the run terminates, and its accepted databases, their layout, counters and status are those of the grammar |
| Machine.GenerateParser.Terminate | src/mysql_seed_generate.h:11243-11250 | the chain ends with NULL whichever way the run ended |
| Machine.GenerateParser.ParseDbSpecs | src/mysql_seed_generate.h:11243-11250 | a whole run from the first argument, within the allocation |
| Machine.AfterBadDb | src/mysql_seed_generate.h:11204-11225 | rollback on states: writes behind the accepted databases keep the run's invariant |
| Machine.DbJoins | src/mysql_seed_generate.h:4092-4101 | the tail-queue step keeps the layout of all databases before it |
| Machine.RoomForDb | src/mysql_seed_generate.h:11348-11367 | eight arguments pay for DbSpec, TblSpec and the first ColSpec |
| Machine.RoomForTbl | src/mysql_seed_generate.h:11135-11185 | a further table with its first column is paid for by its five arguments |
| Generate.GenerateDispatch | src/mysql_seed_generate.h:11253-11452 | for every command line: the handed-over memory read from `valid.head` is exactly the accepted databases of the grammar, tiled within the allocation, and their specifications are read back from it, as they are from the memory that any printed command line leaves; the counters are theirs; success iff the run is clean; some setter of these databases has divided by zero, so that the code does not get there, iff a column or JOIN member of theirs has a kind that divides |
| Generate.AcceptedAreRead | src/mysql_seed_generate.h:11243-11250 | the terminated list, read by its pointers, and the counters are those of the accepted databases |
| Execute.StringStartsWith | src/string/string_utils.h:2030-2046 | the offset behind the prefix iff the string has it |
| Execute.OptionRest | src/mysql_seed_execute.h:174-318 | short option, long option alone or long option with `=`: where its value starts |
| Execute.FindUser | src/mysql_seed_execute.h:174-249 | all four spellings of the user option, and the one without its argument |
| Execute.FindPassword | src/mysql_seed_execute.h:252-318 | all four spellings of the password option, two of which prompt |
| Execute.ParseUser | src/mysql_seed_execute.h:174-249 | an optional user option, with a name behind it |
| Execute.ParsePassword | src/mysql_seed_execute.h:252-318 | an optional password option, with a name behind it |
| Execute.ParseCredentials | src/mysql_seed_execute.h:321-496 | the two-order parser against a function of the arguments |
| Execute.CredentialsIff | README.md:236-251 | credentials and the position behind them are accepted iff the arguments before it are a CRED_SPEC with both options in either order, one of them or none, a name follows, and it does not begin an option that is still missing |
| Execute.OrderDoesNotMatter | src/mysql_seed_execute.h:442-496 | for every spelling of both options, both orders give the same credentials and the same names, or both fail because the prompt does |
| Execute.NamesRemain | src/mysql_seed_execute.h:442-496 | credentials are accepted only with at least one name behind them |
| Execute.ParseNamesRecover | src/mysql_seed_execute.h:545-559 | goes on filling the array with exactly the valid names, in order |
| Execute.ParseNames | src/mysql_seed_execute.h:561-581 | the array holds exactly the valid names in order, with their lengths; failure iff one is invalid |
| Execute.ValidNamesAreFew | src/mysql_seed_execute.h:561-581 | they never exceed the arguments, and equal them in number iff all are valid |
| Execute.ExecuteDispatch | src/mysql_seed_execute.h:586-647 | status and job for every command line |
| Execute.GeneratedNamesExecute | src/mysql_seed_execute.h:502-542 | execute mode accepts the name of every database that generate mode accepts, with the same length of at most 252 octets |

## Left out

- Error messages: the `invalid_*`, `expected_*`, `no_*` and `inc_*` printers, `put_inspect` and `DbSpec.from`, which only they read. Their effect on the parse state is kept.
- File, directory and chdir wrappers, `LengthLock`, the `remove` and `help` modes, the dispatch on the mode, and everything under `include/mysql`.
- Building and loading tables, the thread pool, CSV output, and the execution of SQL. Build functions are tags; `Building.Writes` says which columns they may write, with names, UUIDs and hashes described by their lengths only. The loops of `build_column_*_unique_group` and of the unique times are methods; the other build functions loop in the same ways.
- What a clock shows is a parameter of `Building.Writes`, one format for each clock, though the code gives both the same; how a time string is incremented is not modelled.
- Groups.PartitionLinear: computes the line in exact arithmetic, where the code adds up doubles and a whole part may be rounded the other way.
- Groups.BlocksPartition: takes the rows of a row block as a parameter, as do all theorems about times; `Groups.BlockRows` is what the code takes.
- Encoding.TextsAreEncoded: says what the scanner accepts, which includes encodings longer than needed, surrogates and numbers from 0x110000 up to 0x1FFFFF.
- The password prompt is a parameter: what it brings, or that it fails. Whether `malloc` succeeds is a parameter, too.
- Struct sizes are parameters. Unions are stored as values: fields that the chosen kind does not read have no meaning, and a setter that takes no group clears the stored group, which the code leaves stale and unread.
- The plain and JOIN versions of a parse node are one method with a parameter `inJoin`, the signed and unsigned ones with a parameter `sign`. Function pointers are tags: `set_col_spec` and `set_join` follow from the stored kind, `handle_grp_spec` is `Machine.Handler`.
- Calls in tail position return the node that comes next; the methods that loop over columns, members, tables and databases follow them. C stack depth is not modelled.
- The setters themselves are functions (`Columns.SetColumn`, `Columns.SetJoin`, `Columns.Add`, `Columns.Asks`, `Random.PlanOf`), which `Machine.GenerateParser.SetSpec` applies to the stored record.
- Arguments are scanned once, up front, into tokens, by `Tokens.Scan`; the parser reads tokens. `Flags.DispatchIsWord` and `Flags.MatchIsWord` tie the word of a token to the text that a dispatcher or `flag_match` accepts.
- Machine.GenerateParser.Close: decides on the word of a token that was scanned before, where the code compares octets in a two-level switch of its own at every such place.
- Machine.GenerateParser.ParseColType: likewise, as do the qualifier methods.
- Numbers.KeepFixedInteger: is not called by the parser, which stores the text as `Columns.BaseOf` has it; `Columns.KeptTextIsBase` says that this is the text kept. No later read of the same argument would see the rewriting.
- Counters are unbounded naturals; overflow of `size_t` sums is not modelled.
- Signed overflow in the span computations is two's-complement wrap-around. The random generator is a source of arbitrary words; its quality is not modelled.
- Rendering.PlainTypeIsLegalIff: takes 255 as the limit of CHAR, as the documentation of the program does, and 65535 as that of VARCHAR; how character sets and row sizes lower the latter is left out.
- Machine.GenerateParser.SetSpec: stores a span of 0 and goes on, where the code divides by it; `Divisions` says when.
- Generate.GenerateDispatch: says of the accepted databases whether a setter has divided by zero; a column that was complete before its DB_SPEC was refused may have done so, too.
