# Ticket viewer record transformer, in Dafny

This project models the record-transformation core of a command-line railway ticket
viewer (`tickets/tickets.py`, class `TrainsCollection`). The upstream service returns
one `|`-separated string per train. Its fields are known only by position. The
collection turns each record that passes the train-category filter into a 15-cell
display row:

- the train number (field 3);
- the query-from and query-to stations, each with a start (始), end (终) or
  pass-through (过) mark, on two lines;
- the departure and arrival times (fields 8 and 9), on two lines;
- the duration (field 10, `HH:MM`) as `H小时M分` with leading zeros compacted;
- eleven seat-class availabilities, with `--` for an empty field.

Modules:

- `Wrappers` (`wrappers.dfy`): `Option` for Python's `None`, `Result` for a raised exception.
- `Builtins` (`builtins.dfy`): the Python built-ins the core relies on. These are
  `str.split` and `str.join` with a one-character separator, `str.replace` of one
  character, `str.startswith`, the slice `s[n:]`, one-character `lower()`,
  `dict.get` and `str()` of an optional string. Split and join are proved to be
  inverse to each other.
- `Directory` (`directory.dfy`): the station table as its items in insertion order,
  `dict(pairs)` with the later pair winning, and the code-to-name inversion built
  at `tickets/tickets.py:86`.
- `Tickets` (`tickets.dfy`): the header, the colour codes, `GetDuration`,
  `CheckEquals`, row assembly, the per-record step with its error paths, the
  generator as a specification function (`TrainsOf`), a filter-then-map reference
  (`FilterRows`), and the class `TrainsCollection` whose method `Trains` runs the
  generator loop. The per-record functions take the inverted code-to-name table;
  `Trains` builds it from the station items for each record, as the source does.
  A two-line cell is written as the first line, a newline and the second line;
  `StationCellIsJoin` and `JoinTwo` show that this is `'\n'.join` of the two lines.

Behaviour worth knowing, taken from the code:

- A station code that is missing from the table is looked up as `None` and shown as
  the text `None`.
- Two missing codes compare equal, so they can produce a 始 mark.
- The start check comes first. A station that is both the origin and the terminus
  is marked 始.
- The filter runs before offsets 4 to 33 are read. A short record that the filter
  rejects therefore raises nothing.
- A record with fewer than 4 fields, or with an empty train number, raises whether
  or not it is admitted.
- An admitted record with fewer than 34 fields raises.
- The generator is lazy. Rows yielded before a raise have already been produced, so
  `Trains` returns those rows together with the error.
- The row has 15 cells, matching the 15 names of `header` (line 35).

## Model

| member | source | states |
|---|---|---|
| `Builtins.Split` | tickets/tickets.py:80 | splitting on `|` yields at least one piece and no piece contains the separator |
| `Builtins.JoinSplit` | tickets/tickets.py:80 | joining the pieces of a split with the separator gives back the original record |
| `Builtins.SplitJoin` | tickets/tickets.py:80 | splitting a join of separator-free fields gives back exactly those fields, so the field positions are recovered |
| `Builtins.JoinTwo` | tickets/tickets.py:102-105 | `'\n'.join` of two lines is the first line, one newline, then the second line |
| `Builtins.ReplaceConcat` | tickets/tickets.py:51 | replacing a character in a concatenation is the concatenation of the replaced parts |
| `Builtins.ReplaceAbsent` | tickets/tickets.py:51 | a string without the target character is left unchanged by the replacement |
| `Builtins.ReplaceRemoves` | tickets/tickets.py:51 | when the replacement text does not contain the target, no occurrence of the target survives |
| `Directory.DictOf` | tickets/tickets.py:86 | a dictionary built from pairs has as keys exactly the keys that occur among the pairs |
| `Directory.Invert` | tickets/tickets.py:86 | the inverted table has as keys exactly the codes of the station table |
| `Directory.DictOfLastWins` | tickets/tickets.py:86 | a key that occurs several times maps to the value of its last pair |
| `Directory.InvertLastWins` | tickets/tickets.py:86 | when two names share a code, the inverted table maps the code to the later name |
| `Directory.ResolveRoundTrip` | tickets/tickets.py:86-93 | with unique names and codes, looking up a name's code in the inverted table gives back the name |
| `Tickets.HeaderLayout` | tickets/tickets.py:35 | the header has 15 names: train number, station, time and duration, then one per entry of the seat-offset table, so each row cell has a column name |
| `Tickets.DurationShape` | tickets/tickets.py:50-57 | for every duration field: the result contains no colon; it is a suffix of the text with the colon replaced by 小时 and 分 appended; it is that whole text when the field does not start with `0` |
| `Tickets.ComposedClock` | tickets/tickets.py:51 | replacing the colon with 小时 and appending 分 turns `hour:minutes` into `hour小时minutes分` |
| `Tickets.DurationOfClock` | tickets/tickets.py:50-57 | for a two-character hour: hour `00` leaves only `minutes分`; a leading `0` is dropped (`H小时MM分`); any other hour gives `HH小时MM分` |
| `Tickets.DurationExamples` | tickets/tickets.py:50-57 | `00:19` gives `19分`, `01:05` gives `1小时05分`, `12:30` gives `12小时30分` |
| `Tickets.CheckEquals` | tickets/tickets.py:59-73 | the mark is 始 iff the station equals the start; 终 iff it differs from the start and equals the end; 过 iff it equals neither; so exactly one of the three, with the start check winning |
| `Tickets.SeatCell` | tickets/tickets.py:109-112 | a non-empty seat field is shown as it is and an empty one as `--`, so a seat cell is never empty |
| `Tickets.SeatCells` | tickets/tickets.py:111-142 | there is one seat cell per entry of the seat-offset table (eleven) |
| `Tickets.SeatCellsFollowTable` | tickets/tickets.py:111-142 | seat cell k is the field at offset k of the table 32, 31, 30, 21, 23, 33, 28, 24, 29, 26, 22, with `--` for an empty field |
| `Tickets.StationCellIsJoin` | tickets/tickets.py:102-103 | the station cell is the `'\n'.join` of the green query-from line and the red query-to line, each made of its mark, a space, `str` of the looked-up name and the colour reset |
| `Tickets.FromStationLine` | tickets/tickets.py:86-103 | a query-from code listed in the station table shows, on the first line, the name the inverted table gives it (the later name for a shared code), after its mark against the looked-up origin and terminus |
| `Tickets.ToStationLine` | tickets/tickets.py:86-103 | a query-to code listed in the station table shows, on the second line, its looked-up name after its mark against the origin and terminus |
| `Tickets.ToAtTerminusIsEnd` | tickets/tickets.py:90-103 | a query-to station that reads as the terminus and not as the origin ends the cell with a red 终 line for that station |
| `Tickets.FromAtOriginIsStart` | tickets/tickets.py:90-103 | a query-from station with the origin's code is marked 始 on the first line, even when it is also the terminus |
| `Tickets.UnknownCodesCompareEqual` | tickets/tickets.py:90-103 | when the origin and query-from codes are both unknown, both read as None, so the first line is `始 None` in green |
| `Tickets.MakeRow` | tickets/tickets.py:100-143 | a row has as many cells as the header names; cell 0 is the train number (field 3); cell 1 is the station cell; cell 3 is the duration; cells 4 to 14 are the seat cells |
| `Tickets.SeatColumns` | tickets/tickets.py:100-142 | row cell k + 4 is the field at seat offset k, or `--` when that field is empty |
| `Tickets.TimeColumnLines` | tickets/tickets.py:104-105 | the time cell splits on newlines into the green departure line and the red arrival line |
| `Tickets.FilterByInitial` | tickets/tickets.py:84-88 | an empty option string admits every train; otherwise a train is admitted iff its initial, lowered when it is an upper-case ASCII letter, occurs in the options |
| `Tickets.FilterIgnoresCase` | tickets/tickets.py:84-88 | trains whose initials differ only in ASCII case are admitted or rejected together |
| `Tickets.ProcessRecord` | tickets/tickets.py:80-144 | one record raises iff it has no non-empty field 3, or it is admitted with fewer than 34 fields. It yields nothing iff it has a train number and the filter rejects it. A row it yields has 15 cells and starts with the train number |
| `Tickets.RecordsRoundTrip` | tickets/tickets.py:78-80 | splitting loses nothing: each record's fields, joined with `|`, give the record back |
| `Tickets.TrainsOf` | tickets/tickets.py:76-144 | the generator yields at most one row per record |
| `Tickets.FilterRows` | tickets/tickets.py:84-143 | filter-then-map over well-formed records: at most one row per record, each with 15 cells |
| `Tickets.WellFormedTrains` | tickets/tickets.py:76-144 | on records with a train number and at least 34 fields the generator never raises and yields exactly the filter-then-map rows, in input order |
| `Tickets.EmptyFilterKeepsAll` | tickets/tickets.py:88 | with no options every well-formed record yields one row, in input order, headed by its own train number |
| `Tickets.FailureIsFinal` | tickets/tickets.py:76-144 | once a record has raised, later records change neither the rows nor the error |
| `Tickets.NoErrorNoFailure` | tickets/tickets.py:76-144 | if no record raises, the generator ends without an error |
| `Tickets.StopsAtFirstError` | tickets/tickets.py:76-144 | the first record that raises ends the run with its error, after exactly the rows of the records before it |
| `Tickets.TrainsCollection.constructor` | tickets/tickets.py:38-46 | the collection keeps the records and the option string it is given |
| `Tickets.TrainsCollection.Trains` | tickets/tickets.py:76-144 | the loop's rows and error are exactly those of the generator specification on the split records, with the code-to-name table inverted from the station items |

## Left out

- `cli()` (tickets/tickets.py:157-180) is not modelled. It does argument parsing with docopt, the HTTP GET with certificate checks disabled, and JSON decoding of `data.result`. All of these are I/O or library calls. The records and the option string are parameters instead.
- `pretty_print` (tickets/tickets.py:147-154) is not modelled. It renders the table with PrettyTable and prints it, which is terminal output through a library.
- tickets/parse_station.py is not modelled. It is a one-shot script: a network fetch, a regular-expression scan and a pretty-print.
- The `stations` module is not part of this model. The table is a parameter, given as its items in insertion order so that the "later pair wins" rule of the inversion can be stated.
- Colour codes are opaque constant strings with colorama's values. Their effect on a terminal is not modelled.
- `Builtins.LowerAscii`: `lower()` is modelled for ASCII letters only. Python's Unicode lowering of other characters, which can give two characters and turn `in` into a substring test, is not modelled. Train numbers are ASCII.
- Laziness: `Trains` runs the generator to its end or to its first error, rather than yielding rows on demand. Because the error comes back together with the rows yielded before it, the visible result is the same.
- `Tickets.DurationOfClock`: stated only for a two-character hour and a colon-free minute part, the format of the upstream field. `GetDuration` itself follows the code for every string.
- `Tickets.FilterRows`: the filter-then-map reference is defined only for well-formed records. The error paths are stated by `ProcessRecord`, `FailureIsFinal` and `StopsAtFirstError`.
