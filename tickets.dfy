/**
 * The record transformer of the ticket viewer: each upstream record is a
 * `|`-separated string whose fields are known only by position; the collection
 * turns the records that pass the train-category filter into 15-column display
 * rows (train number, stations with their start/end/pass-through marks, times,
 * duration, and eleven seat-class availabilities).
 */
module Tickets {
  import opened Wrappers
  import opened Builtins
  import Directory

  /** One display row: a list of 15 cells. */
  type Row = seq<string>

  /** The column names of the table. */
  const Header: seq<string> :=
    ["车次", "车站", "时间", "历时", "特等", "一等", "二等", "高级软卧",
     "软卧", "动卧", "硬卧", "软座", "硬座", "无座", "其它"]

  /** The header has one name per row cell: train number, station, time and duration,
      then one name per entry of the seat-offset table. */
  lemma HeaderLayout()
    ensures |Header| == 4 + |SeatOffsets| == 15
    ensures Header[..4] == ["车次", "车站", "时间", "历时"]
  {
  }

  /** Terminal colour codes (colorama's Fore.GREEN, Fore.RED and Fore.RESET), opaque text here. */
  const Green: string := "\U{1B}[32m"
  const Red: string := "\U{1B}[31m"
  const Reset: string := "\U{1B}[39m"

  /** Record offsets of the eleven seat classes, in the order of the last eleven header columns. */
  const SeatOffsets: seq<nat> := [32, 31, 30, 21, 23, 33, 28, 24, 29, 26, 22]

  /** A record must have this many fields for a row to be built from it (offset 33 is read). */
  const FieldCount: nat := 34

  /** What aborts the generator: a list index past the end, or the first character of an empty string. */
  datatype TicketError = ListIndexOutOfRange | StringIndexOutOfRange

  // ---------------------------------------------------------------------------
  // Duration

  /** The duration field (offset 10, "HH:MM") as "H小时M分", with a leading "00小时" or a leading zero removed. */
  function GetDuration(rawTrain: seq<string>): string
    requires 10 < |rawTrain|
  {
    var duration := Replace(rawTrain[10], ':', "小时") + "分";
    if StartsWith(duration, "00") then Drop(duration, 4)
    else if StartsWith(duration, "0") then Drop(duration, 1)
    else duration
  }

  /** For every duration field: the result has no colon left, is a suffix of the composed
      text (colon replaced by 小时, 分 appended), and is that whole text unless the field
      starts with a zero. */
  lemma DurationShape(rawTrain: seq<string>)
    requires 10 < |rawTrain|
    ensures ':' !in GetDuration(rawTrain)
    ensures EndsWith(Replace(rawTrain[10], ':', "小时") + "分", GetDuration(rawTrain))
    ensures !StartsWith(rawTrain[10], "0") ==> GetDuration(rawTrain) == Replace(rawTrain[10], ':', "小时") + "分"
  {
    var composed := Replace(rawTrain[10], ':', "小时") + "分";
    DurationIsSuffix(rawTrain);
    ReplaceRemoves(rawTrain[10], ':', "小时");
    assert ':' !in composed;
    SuffixAvoids(composed, GetDuration(rawTrain), ':');
    ComposedStartsLikeField(rawTrain[10]);
  }

  /** The duration is what remains of the composed text after the dropped zeros. */
  lemma DurationIsSuffix(rawTrain: seq<string>)
    requires 10 < |rawTrain|
    ensures EndsWith(Replace(rawTrain[10], ':', "小时") + "分", GetDuration(rawTrain))
  {
    var composed := Replace(rawTrain[10], ':', "小时") + "分";
    var d := GetDuration(rawTrain);
    var k := if StartsWith(composed, "00") then 4 else if StartsWith(composed, "0") then 1 else 0;
    if k <= |composed| {
      assert d == composed[k..];
    } else {
      assert d == [] && composed[|composed|..] == [];
    }
  }

  /** The composed text starts with a zero only if the field does. */
  lemma ComposedStartsLikeField(field: string)
    ensures StartsWith(Replace(field, ':', "小时") + "分", "0") ==> StartsWith(field, "0")
  {
    var composed := Replace(field, ':', "小时") + "分";
    if field != [] && StartsWith(composed, "0") {
      var head: string := if field[0] == ':' then "小时" else [field[0]];
      assert composed == head + (Replace(field[1..], ':', "小时") + "分");
      assert composed[0] == head[0] == '0';
      assert field[..1] == "0";
    } else if field == [] {
      assert composed == "分";
      assert composed[..1][0] != "0"[0];
    }
  }

  /** The composed string of a clock field: the colon becomes 小时 and 分 is appended. */
  lemma ComposedClock(field: string, hour: string, minutes: string)
    requires field == hour + [':'] + minutes
    requires ':' !in hour && ':' !in minutes
    ensures Replace(field, ':', "小时") + "分" == hour + "小时" + minutes + "分"
  {
    assert field == hour + ([':'] + minutes);
    ReplaceConcat(hour, [':'] + minutes, ':', "小时");
    ReplaceConcat([':'], minutes, ':', "小时");
    ReplaceAbsent(hour, ':', "小时");
    ReplaceAbsent(minutes, ':', "小时");
  }

  /** For a two-character hour and a colon-free minute part: an hour "00" vanishes, a leading zero of the hour is dropped, any other hour is kept. */
  lemma DurationOfClock(rawTrain: seq<string>, h1: char, h2: char, minutes: string)
    requires 10 < |rawTrain| && rawTrain[10] == [h1, h2, ':'] + minutes
    requires h1 != ':' && h2 != ':' && ':' !in minutes
    ensures GetDuration(rawTrain) ==
      if h1 == '0' && h2 == '0' then minutes + "分"
      else if h1 == '0' then [h2] + "小时" + minutes + "分"
      else [h1, h2] + "小时" + minutes + "分"
  {
    var hour: string := [h1, h2];
    assert rawTrain[10] == hour + [':'] + minutes;
    ComposedClock(rawTrain[10], hour, minutes);
    var tail := "小时" + minutes + "分";
    var duration := hour + tail;
    assert hour + "小时" + minutes + "分" == duration;
    assert duration[..2] == hour;
    assert duration[..1] == [h1];
    assert duration[4..] == minutes + "分";
    assert duration[1..] == [h2] + tail;
  }

  /** The three worked cases: "00:19", "01:05" and "12:30". */
  lemma DurationExamples(rawTrain: seq<string>)
    requires 10 < |rawTrain|
    ensures rawTrain[10] == "00:19" ==> GetDuration(rawTrain) == "19分"
    ensures rawTrain[10] == "01:05" ==> GetDuration(rawTrain) == "1小时05分"
    ensures rawTrain[10] == "12:30" ==> GetDuration(rawTrain) == "12小时30分"
  {
    if rawTrain[10] == "00:19" {
      assert rawTrain[10] == ['0', '0', ':'] + "19";
      DurationOfClock(rawTrain, '0', '0', "19");
    } else if rawTrain[10] == "01:05" {
      assert rawTrain[10] == ['0', '1', ':'] + "05";
      DurationOfClock(rawTrain, '0', '1', "05");
      assert ['1'] + "小时" + "05" + "分" == "1小时05分";
    } else if rawTrain[10] == "12:30" {
      assert rawTrain[10] == ['1', '2', ':'] + "30";
      DurationOfClock(rawTrain, '1', '2', "30");
      assert ['1', '2'] + "小时" + "30" + "分" == "12小时30分";
    }
  }

  // ---------------------------------------------------------------------------
  // Position of a station on the train's route

  /** Classifies a station as the start (始), the end (终) or a pass-through (过); the start check wins. */
  function CheckEquals<T(==)>(startStation: T, endStation: T, testStation: T): (mark: char)
    ensures mark == '始' <==> testStation == startStation
    ensures mark == '终' <==> testStation != startStation && testStation == endStation
    ensures mark == '过' <==> testStation != startStation && testStation != endStation
  {
    if startStation == testStation then '始'
    else if endStation == testStation then '终'
    else '过'
  }

  // ---------------------------------------------------------------------------
  // Row assembly

  /** A seat availability, or "--" when the field is empty. */
  function SeatCell(field: string): (cell: string)
    ensures cell != []
    ensures field != [] ==> cell == field
    ensures field == [] ==> cell == "--"
  {
    if field != "" then field else "--"
  }

  /** The eleven seat cells of a record: business/special, first, second, premium soft
      sleeper, soft sleeper, motor sleeper, hard sleeper, soft seat, hard seat, no seat, other. */
  function SeatCells(rawTrain: seq<string>): (cells: seq<string>)
    requires FieldCount <= |rawTrain|
    ensures |cells| == |SeatOffsets|
  {
    [ SeatCell(rawTrain[32]),
      SeatCell(rawTrain[31]),
      SeatCell(rawTrain[30]),
      SeatCell(rawTrain[21]),
      SeatCell(rawTrain[23]),
      SeatCell(rawTrain[33]),
      SeatCell(rawTrain[28]),
      SeatCell(rawTrain[24]),
      SeatCell(rawTrain[29]),
      SeatCell(rawTrain[26]),
      SeatCell(rawTrain[22]) ]
  }

  /** One line of the station column: the colour, the start/end/pass-through mark, a
      space, the station name (`str` of the lookup, so "None" for an unknown code) and
      the colour reset. */
  function StationLine(colour: string, mark: char, station: Option<string>): string {
    colour + [mark] + " " + Str(station) + Reset
  }

  /** The station column: the query-from station in green over the query-to station in
      red, each named through the code -> name table and marked against the train's
      origin and terminus. The two lines are joined with a newline (`'\n'.join` of two
      lines, see StationCellIsJoin). */
  function StationCell(rawTrain: seq<string>, stationRe: map<string, string>): string
    requires 7 < |rawTrain|
  {
    var beginStation := DictGet(stationRe, rawTrain[4]);
    var endStation := DictGet(stationRe, rawTrain[5]);
    var fromStation := DictGet(stationRe, rawTrain[6]);
    var toStation := DictGet(stationRe, rawTrain[7]);
    var beginFlag := CheckEquals(beginStation, endStation, fromStation);
    var endFlag := CheckEquals(beginStation, endStation, toStation);
    StationLine(Green, beginFlag, fromStation) + "\n" + StationLine(Red, endFlag, toStation)
  }

  /** The station column is the newline join of its two lines. */
  lemma StationCellIsJoin(rawTrain: seq<string>, stationRe: map<string, string>)
    requires 7 < |rawTrain|
    ensures var begin, end := DictGet(stationRe, rawTrain[4]), DictGet(stationRe, rawTrain[5]);
      var from, to := DictGet(stationRe, rawTrain[6]), DictGet(stationRe, rawTrain[7]);
      StationCell(rawTrain, stationRe) ==
        Join([StationLine(Green, CheckEquals(begin, end, from), from),
              StationLine(Red, CheckEquals(begin, end, to), to)], '\n')
  {
    var begin, end := DictGet(stationRe, rawTrain[4]), DictGet(stationRe, rawTrain[5]);
    var from, to := DictGet(stationRe, rawTrain[6]), DictGet(stationRe, rawTrain[7]);
    JoinTwo(StationLine(Green, CheckEquals(begin, end, from), from),
            StationLine(Red, CheckEquals(begin, end, to), to), '\n');
  }

  /** The row built from the fields of an admitted record, given the code -> name table. */
  function MakeRow(rawTrain: seq<string>, stationRe: map<string, string>): (row: Row)
    requires FieldCount <= |rawTrain|
    ensures |row| == |Header|
    ensures row[0] == rawTrain[3]
    ensures row[1] == StationCell(rawTrain, stationRe)
    ensures row[3] == GetDuration(rawTrain)
    ensures row[4..] == SeatCells(rawTrain)
  {
    var row := [ rawTrain[3],
      StationCell(rawTrain, stationRe),
      (Green + rawTrain[8] + Reset) + "\n" + (Red + rawTrain[9] + Reset),
      GetDuration(rawTrain) ] + SeatCells(rawTrain);
    assert row[4..] == SeatCells(rawTrain);
    row
  }

  /** The seat cells follow the seat table: cell k is the field at offset SeatOffsets[k], with "--" for an empty field. */
  lemma SeatCellsFollowTable(rawTrain: seq<string>)
    requires FieldCount <= |rawTrain|
    ensures forall k :: 0 <= k < |SeatOffsets| ==> SeatCells(rawTrain)[k] == SeatCell(rawTrain[SeatOffsets[k]])
  {
    var cells := SeatCells(rawTrain);
    forall k | 0 <= k < |SeatOffsets|
      ensures cells[k] == SeatCell(rawTrain[SeatOffsets[k]])
    {
      if k == 0 {} else if k == 1 {} else if k == 2 {} else if k == 3 {} else if k == 4 {}
      else if k == 5 {} else if k == 6 {} else if k == 7 {} else if k == 8 {} else if k == 9 {}
      else {}
    }
  }

  /** Columns 4 to 14 hold the seat fields at the offsets of the seat table, in table order, with "--" for an empty field. */
  lemma SeatColumns(rawTrain: seq<string>, stationRe: map<string, string>)
    requires FieldCount <= |rawTrain|
    ensures forall k :: 0 <= k < |SeatOffsets| ==>
      MakeRow(rawTrain, stationRe)[k + 4] == SeatCell(rawTrain[SeatOffsets[k]])
  {
    var row := MakeRow(rawTrain, stationRe);
    SeatCellsFollowTable(rawTrain);
    forall k | 0 <= k < |SeatOffsets|
      ensures row[k + 4] == SeatCell(rawTrain[SeatOffsets[k]])
    {
      assert row[k + 4] == row[4..][k];
    }
  }

  /** The time column is two lines: the departure time in green, then the arrival time in red. */
  lemma TimeColumnLines(rawTrain: seq<string>, stationRe: map<string, string>)
    requires FieldCount <= |rawTrain|
    requires '\n' !in rawTrain[8] && '\n' !in rawTrain[9]
    ensures Split(MakeRow(rawTrain, stationRe)[2], '\n') == [Green + rawTrain[8] + Reset, Red + rawTrain[9] + Reset]
  {
    var lines := [Green + rawTrain[8] + Reset, Red + rawTrain[9] + Reset];
    assert '\n' !in Green && '\n' !in Red && '\n' !in Reset;
    assert forall i :: 0 <= i < |lines| ==> '\n' !in lines[i];
    JoinTwo(lines[0], lines[1], '\n');
    SplitJoin(lines, '\n');
  }

  /** The first line of the station column: a query-from code that the station table
      lists (the later name wins for a shared code) shows that name, in green, after its
      mark against the looked-up origin and terminus. */
  lemma FromStationLine(rawTrain: seq<string>, items: Directory.Items, j: nat)
    requires 7 < |rawTrain|
    requires j < |items| && items[j].1 == rawTrain[6]
    requires forall k :: j < k < |items| ==> items[k].1 != items[j].1
    ensures var re := Directory.Invert(items);
      var mark := CheckEquals(DictGet(re, rawTrain[4]), DictGet(re, rawTrain[5]), Some(items[j].0));
      StartsWith(StationCell(rawTrain, re), StationLine(Green, mark, Some(items[j].0)) + "\n")
  {
    var re := Directory.Invert(items);
    Directory.InvertLastWins(items, j);
    var begin, end, to := DictGet(re, rawTrain[4]), DictGet(re, rawTrain[5]), DictGet(re, rawTrain[7]);
    var first := StationLine(Green, CheckEquals(begin, end, Some(items[j].0)), Some(items[j].0));
    StartsWithConcat(first + "\n", StationLine(Red, CheckEquals(begin, end, to), to));
  }

  /** The second line of the station column: a query-to code that the station table
      lists shows that name, in red, after its mark against the origin and terminus. */
  lemma ToStationLine(rawTrain: seq<string>, items: Directory.Items, j: nat)
    requires 7 < |rawTrain|
    requires j < |items| && items[j].1 == rawTrain[7]
    requires forall k :: j < k < |items| ==> items[k].1 != items[j].1
    ensures var re := Directory.Invert(items);
      var mark := CheckEquals(DictGet(re, rawTrain[4]), DictGet(re, rawTrain[5]), Some(items[j].0));
      EndsWith(StationCell(rawTrain, re), "\n" + StationLine(Red, mark, Some(items[j].0)))
  {
    var re := Directory.Invert(items);
    Directory.InvertLastWins(items, j);
    var begin, end, from := DictGet(re, rawTrain[4]), DictGet(re, rawTrain[5]), DictGet(re, rawTrain[6]);
    var first := StationLine(Green, CheckEquals(begin, end, from), from);
    var second := StationLine(Red, CheckEquals(begin, end, Some(items[j].0)), Some(items[j].0));
    assert first + "\n" + second == first + ("\n" + second);
    EndsWithConcat(first, "\n" + second);
  }

  /** A query-to station that reads as the terminus and not as the origin is marked 终. */
  lemma ToAtTerminusIsEnd(rawTrain: seq<string>, stationRe: map<string, string>)
    requires 7 < |rawTrain|
    requires DictGet(stationRe, rawTrain[7]) == DictGet(stationRe, rawTrain[5])
    requires DictGet(stationRe, rawTrain[7]) != DictGet(stationRe, rawTrain[4])
    ensures EndsWith(StationCell(rawTrain, stationRe), StationLine(Red, '终', DictGet(stationRe, rawTrain[7])))
  {
    var begin, end := DictGet(stationRe, rawTrain[4]), DictGet(stationRe, rawTrain[5]);
    var from := DictGet(stationRe, rawTrain[6]);
    var first := StationLine(Green, CheckEquals(begin, end, from), from);
    EndsWithConcat(first + "\n", StationLine(Red, '终', DictGet(stationRe, rawTrain[7])));
  }

  /** A query-from station with the origin's code is marked 始, even when it is also the terminus. */
  lemma FromAtOriginIsStart(rawTrain: seq<string>, stationRe: map<string, string>)
    requires 7 < |rawTrain|
    requires rawTrain[6] == rawTrain[4]
    ensures StartsWith(StationCell(rawTrain, stationRe), StationLine(Green, '始', DictGet(stationRe, rawTrain[6])) + "\n")
  {
    var begin, end, to := DictGet(stationRe, rawTrain[4]), DictGet(stationRe, rawTrain[5]), DictGet(stationRe, rawTrain[7]);
    var first := StationLine(Green, '始', DictGet(stationRe, rawTrain[6]));
    StartsWithConcat(first + "\n", StationLine(Red, CheckEquals(begin, end, to), to));
  }

  /** Two codes missing from the table both read as None, so they compare equal: an unknown
      query-from station on a train with an unknown origin is shown as "始 None". */
  lemma UnknownCodesCompareEqual(rawTrain: seq<string>, stationRe: map<string, string>)
    requires 7 < |rawTrain|
    requires rawTrain[4] !in stationRe && rawTrain[6] !in stationRe
    ensures StartsWith(StationCell(rawTrain, stationRe), StationLine(Green, '始', None) + "\n")
    ensures StationLine(Green, '始', None) == Green + "始 None" + Reset
  {
    var end, to := DictGet(stationRe, rawTrain[5]), DictGet(stationRe, rawTrain[7]);
    StartsWithConcat(StationLine(Green, '始', None) + "\n", StationLine(Red, CheckEquals(None, end, to), to));
  }

  // ---------------------------------------------------------------------------
  // One record

  /** The record has a field at offset 3 and it is not empty. */
  predicate HasTrainNumber(rawTrain: seq<string>) {
    |rawTrain| > 3 && rawTrain[3] != []
  }

  /** The category filter: no options admit everything; otherwise the lowered first
      character of the train number must occur in the option string. */
  predicate Admits(options: string, rawTrain: seq<string>)
    requires HasTrainNumber(rawTrain)
  {
    options == [] || LowerAscii(rawTrain[3][0]) in options
  }

  /** An initial that is not an upper-case ASCII letter is looked up in the options as it is;
      an empty option string admits every train. */
  lemma FilterByInitial(options: string, rawTrain: seq<string>)
    requires HasTrainNumber(rawTrain)
    ensures options == [] ==> Admits(options, rawTrain)
    ensures !('A' <= rawTrain[3][0] <= 'Z') ==>
      (Admits(options, rawTrain) <==> options == [] || rawTrain[3][0] in options)
    ensures 'A' <= rawTrain[3][0] <= 'Z' ==>
      (Admits(options, rawTrain) <==> options == [] || (rawTrain[3][0] as int + 32) as char in options)
  {
  }

  /** The filter ignores the case of an ASCII initial: "G1" and "g1" are admitted or rejected together. */
  lemma FilterIgnoresCase(options: string, rawTrain: seq<string>, other: seq<string>)
    requires HasTrainNumber(rawTrain) && HasTrainNumber(other)
    requires 'A' <= rawTrain[3][0] <= 'Z'
    requires other[3][0] as int == rawTrain[3][0] as int + 32
    ensures Admits(options, rawTrain) <==> Admits(options, other)
  {
    assert LowerAscii(rawTrain[3][0]) == other[3][0];
  }

  /** One pass of the generator's loop body on the fields of one record: an error,
      nothing (filtered out), or one row. Offsets past 3 are read only once the
      filter has admitted the record. */
  function ProcessRecord(rawTrain: seq<string>, options: string, stationRe: map<string, string>): (out: Result<Option<Row>, TicketError>)
    ensures out.Err? <==> !HasTrainNumber(rawTrain) || (Admits(options, rawTrain) && |rawTrain| < FieldCount)
    ensures out == Ok(None) <==> HasTrainNumber(rawTrain) && !Admits(options, rawTrain)
    ensures out.Ok? && out.value.Some? ==>
      |rawTrain| >= FieldCount && |out.value.value| == |Header| && out.value.value[0] == rawTrain[3]
  {
    if |rawTrain| <= 3 then Err(ListIndexOutOfRange)
    else if rawTrain[3] == [] then Err(StringIndexOutOfRange)
    else if !Admits(options, rawTrain) then Ok(None)
    else if |rawTrain| < FieldCount then Err(ListIndexOutOfRange)
    else Ok(Some(MakeRow(rawTrain, stationRe)))
  }

  // ---------------------------------------------------------------------------
  // The generator

  /** Each record split on '|' into its fields. */
  function SplitRecords(records: seq<string>): (rawTrains: seq<seq<string>>)
    ensures |rawTrains| == |records|
    ensures forall i :: 0 <= i < |records| ==> rawTrains[i] == Split(records[i], '|')
  {
    seq(|records|, i requires 0 <= i < |records| => Split(records[i], '|'))
  }

  /** No record loses anything in the split: joining each record's fields with '|' gives the record back. */
  lemma RecordsRoundTrip(records: seq<string>)
    ensures forall i :: 0 <= i < |records| ==>
      |SplitRecords(records)[i]| >= 1 && Join(SplitRecords(records)[i], '|') == records[i]
  {
    forall i | 0 <= i < |records|
      ensures |SplitRecords(records)[i]| >= 1 && Join(SplitRecords(records)[i], '|') == records[i]
    {
      JoinSplit(records[i], '|');
    }
  }

  /** What the generator produces: the rows yielded, and the error that ended it early, if any. */
  datatype Yield = Yield(rows: seq<Row>, failure: Option<TicketError>)

  /** The generator over the split records, record by record; the first error stops it. */
  function TrainsOf(rawTrains: seq<seq<string>>, options: string, stationRe: map<string, string>): (y: Yield)
    ensures |y.rows| <= |rawTrains|
    decreases |rawTrains|
  {
    if rawTrains == [] then Yield([], None)
    else
      var before := TrainsOf(rawTrains[..|rawTrains| - 1], options, stationRe);
      if before.failure.Some? then before
      else
        match ProcessRecord(rawTrains[|rawTrains| - 1], options, stationRe)
        case Err(e) => Yield(before.rows, Some(e))
        case Ok(None) => before
        case Ok(Some(row)) => Yield(before.rows + [row], None)
  }

  /** One more record: the generator, not failed so far, goes on with that record's outcome. */
  lemma TrainsOfStep(rawTrains: seq<seq<string>>, n: nat, options: string, stationRe: map<string, string>)
    requires n < |rawTrains|
    requires TrainsOf(rawTrains[..n], options, stationRe).failure == None
    ensures var before := TrainsOf(rawTrains[..n], options, stationRe);
      TrainsOf(rawTrains[..n + 1], options, stationRe) ==
        match ProcessRecord(rawTrains[n], options, stationRe)
        case Err(e) => Yield(before.rows, Some(e))
        case Ok(None) => before
        case Ok(Some(row)) => Yield(before.rows + [row], None)
  {
    assert rawTrains[..n + 1][..n] == rawTrains[..n];
  }

  /** A record that has a non-empty train number and at least 34 fields. */
  predicate WellFormed(rawTrain: seq<string>) {
    HasTrainNumber(rawTrain) && |rawTrain| >= FieldCount
  }

  /** Every record of the list is well formed. */
  predicate AllWellFormed(rawTrains: seq<seq<string>>) {
    forall i :: 0 <= i < |rawTrains| ==> WellFormed(rawTrains[i])
  }

  /** Filter, then map: the rows of the admitted records, in input order. */
  function FilterRows(rawTrains: seq<seq<string>>, options: string, stationRe: map<string, string>): (rows: seq<Row>)
    requires AllWellFormed(rawTrains)
    ensures |rows| <= |rawTrains|
    ensures forall i :: 0 <= i < |rows| ==> |rows[i]| == |Header|
    decreases |rawTrains|
  {
    if rawTrains == [] then []
    else
      var init := rawTrains[..|rawTrains| - 1];
      var last := rawTrains[|rawTrains| - 1];
      assert AllWellFormed(init) by {
        assert forall i :: 0 <= i < |init| ==> init[i] == rawTrains[i];
      }
      FilterRows(init, options, stationRe)
        + if Admits(options, last) then [MakeRow(last, stationRe)] else []
  }

  /** On well-formed records the generator never fails and yields exactly the filter-then-map rows. */
  lemma {:induction false} WellFormedTrains(rawTrains: seq<seq<string>>, options: string, stationRe: map<string, string>)
    requires AllWellFormed(rawTrains)
    ensures TrainsOf(rawTrains, options, stationRe) == Yield(FilterRows(rawTrains, options, stationRe), None)
    decreases |rawTrains|
  {
    if rawTrains != [] {
      var init := rawTrains[..|rawTrains| - 1];
      assert forall i :: 0 <= i < |init| ==> init[i] == rawTrains[i];
      WellFormedTrains(init, options, stationRe);
    }
  }

  /** Without options no record is filtered out. */
  lemma {:induction false} EmptyFilterLength(rawTrains: seq<seq<string>>, stationRe: map<string, string>)
    requires AllWellFormed(rawTrains)
    ensures |FilterRows(rawTrains, "", stationRe)| == |rawTrains|
    decreases |rawTrains|
  {
    if rawTrains != [] {
      var init := rawTrains[..|rawTrains| - 1];
      assert forall i :: 0 <= i < |init| ==> init[i] == rawTrains[i];
      EmptyFilterLength(init, stationRe);
    }
  }

  /** Without options the row at position i is headed by the train number of record i. */
  lemma {:induction false} EmptyFilterRowAt(rawTrains: seq<seq<string>>, stationRe: map<string, string>, i: nat)
    requires AllWellFormed(rawTrains) && i < |rawTrains|
    ensures |FilterRows(rawTrains, "", stationRe)| == |rawTrains|
    ensures FilterRows(rawTrains, "", stationRe)[i][0] == rawTrains[i][3]
    decreases |rawTrains|
  {
    var init := rawTrains[..|rawTrains| - 1];
    var last := rawTrains[|rawTrains| - 1];
    var rows := FilterRows(init, "", stationRe);
    EmptyFilterStep(rawTrains, stationRe);
    EmptyFilterLength(init, stationRe);
    if i < |init| {
      EmptyFilterRowAt(init, stationRe, i);
      assert (rows + [MakeRow(last, stationRe)])[i] == rows[i];
    } else {
      assert (rows + [MakeRow(last, stationRe)])[i] == MakeRow(last, stationRe);
    }
  }

  /** Without options the last record always contributes its row. */
  lemma EmptyFilterStep(rawTrains: seq<seq<string>>, stationRe: map<string, string>)
    requires AllWellFormed(rawTrains) && rawTrains != []
    ensures AllWellFormed(rawTrains[..|rawTrains| - 1])
    ensures FilterRows(rawTrains, "", stationRe)
      == FilterRows(rawTrains[..|rawTrains| - 1], "", stationRe) + [MakeRow(rawTrains[|rawTrains| - 1], stationRe)]
  {
    var init := rawTrains[..|rawTrains| - 1];
    assert forall k :: 0 <= k < |init| ==> init[k] == rawTrains[k];
  }

  /** Without options every well-formed record yields one row, in input order, headed by its train number. */
  lemma EmptyFilterKeepsAll(rawTrains: seq<seq<string>>, stationRe: map<string, string>)
    requires AllWellFormed(rawTrains)
    ensures |FilterRows(rawTrains, "", stationRe)| == |rawTrains|
    ensures forall i :: 0 <= i < |rawTrains| ==> FilterRows(rawTrains, "", stationRe)[i][0] == rawTrains[i][3]
  {
    EmptyFilterLength(rawTrains, stationRe);
    forall i | 0 <= i < |rawTrains|
      ensures FilterRows(rawTrains, "", stationRe)[i][0] == rawTrains[i][3]
    {
      EmptyFilterRowAt(rawTrains, stationRe, i);
    }
  }

  /** Once the generator has failed on a prefix, the rest of the records change nothing. */
  lemma {:induction false} FailureIsFinal(rawTrains: seq<seq<string>>, k: nat, options: string, stationRe: map<string, string>)
    requires k <= |rawTrains|
    requires TrainsOf(rawTrains[..k], options, stationRe).failure.Some?
    ensures TrainsOf(rawTrains, options, stationRe) == TrainsOf(rawTrains[..k], options, stationRe)
    decreases |rawTrains|
  {
    if k < |rawTrains| {
      var init := rawTrains[..|rawTrains| - 1];
      assert init[..k] == rawTrains[..k];
      FailureIsFinal(init, k, options, stationRe);
    } else {
      assert rawTrains[..k] == rawTrains;
    }
  }

  /** Records that raise nothing leave the generator without a failure. */
  lemma {:induction false} NoErrorNoFailure(rawTrains: seq<seq<string>>, options: string, stationRe: map<string, string>)
    requires forall i :: 0 <= i < |rawTrains| ==> ProcessRecord(rawTrains[i], options, stationRe).Ok?
    ensures TrainsOf(rawTrains, options, stationRe).failure == None
    decreases |rawTrains|
  {
    if rawTrains != [] {
      var init := rawTrains[..|rawTrains| - 1];
      assert forall i :: 0 <= i < |init| ==> init[i] == rawTrains[i];
      NoErrorNoFailure(init, options, stationRe);
    }
  }

  /** The first record that raises ends the generator with that error, after the rows of the records before it. */
  lemma StopsAtFirstError(rawTrains: seq<seq<string>>, k: nat, options: string, stationRe: map<string, string>)
    requires k < |rawTrains|
    requires forall i :: 0 <= i < k ==> ProcessRecord(rawTrains[i], options, stationRe).Ok?
    requires ProcessRecord(rawTrains[k], options, stationRe).Err?
    ensures TrainsOf(rawTrains, options, stationRe) ==
      Yield(TrainsOf(rawTrains[..k], options, stationRe).rows, Some(ProcessRecord(rawTrains[k], options, stationRe).error))
  {
    var prefix := rawTrains[..k];
    assert forall i :: 0 <= i < k ==> prefix[i] == rawTrains[i];
    NoErrorNoFailure(prefix, options, stationRe);
    var upTo := rawTrains[..k + 1];
    assert upTo[..k] == prefix;
    assert upTo[k] == rawTrains[k];
    FailureIsFinal(rawTrains, k + 1, options, stationRe);
  }

  // ---------------------------------------------------------------------------
  // The collection

  /** The records of one query and the option string that selects train categories. */
  class TrainsCollection {
    const availableTrains: seq<string>
    const options: string

    constructor (availableTrains: seq<string>, options: string)
      ensures this.availableTrains == availableTrains && this.options == options
    {
      this.availableTrains := availableTrains;
      this.options := options;
    }

    /** Runs the generator to its end: the rows it yields, and the error it raises, if any. */
    method Trains(stations: Directory.Items) returns (rows: seq<Row>, failure: Option<TicketError>)
      ensures Yield(rows, failure) == TrainsOf(SplitRecords(availableTrains), options, Directory.Invert(stations))
    {
      ghost var rawTrains := SplitRecords(availableTrains);
      ghost var re := Directory.Invert(stations);
      rows, failure := [], None;
      var i := 0;
      while i < |availableTrains| && failure == None
        invariant 0 <= i <= |availableTrains|
        invariant Yield(rows, failure) == TrainsOf(rawTrains[..i], options, re)
      {
        var rawTrain := Split(availableTrains[i], '|');
        assert rawTrain == rawTrains[i];
        TrainsOfStep(rawTrains, i, options, re);
        ghost var outcome := ProcessRecord(rawTrain, options, re);
        if |rawTrain| <= 3 {
          failure := Some(ListIndexOutOfRange);
          assert outcome == Err(ListIndexOutOfRange);
        } else {
          var trainNo := rawTrain[3];
          if trainNo == [] {
            failure := Some(StringIndexOutOfRange);
            assert outcome == Err(StringIndexOutOfRange);
          } else {
            var initial := LowerAscii(trainNo[0]);
            var stationRe := Directory.Invert(stations);
            if options == [] || initial in options {
              if |rawTrain| < FieldCount {
                failure := Some(ListIndexOutOfRange);
                assert outcome == Err(ListIndexOutOfRange);
              } else {
                rows := rows + [MakeRow(rawTrain, stationRe)];
                assert outcome == Ok(Some(MakeRow(rawTrain, re)));
              }
            } else {
              assert outcome == Ok(None);
            }
          }
        }
        i := i + 1;
      }
      if failure.Some? {
        FailureIsFinal(rawTrains, i, options, re);
      } else {
        assert rawTrains[..i] == rawTrains;
      }
    }
  }
}
