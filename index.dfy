/** src/index.ts: the spreadsheet-to-calendar pipeline between the network
    fetch and the calendar encoder. A spreadsheet is a sequence of rows of
    text cells whose first row must be the expected header; every further row
    becomes one event; the events are filtered by visibility and turned into
    the attribute records the encoder takes. */
module Index {
  import opened Results
  import opened Strings
  import opened Joda
  import opened Util

  type Row = seq<string>

  /** `EXPECTED_COLUMNS`: the header row, in order. */
  const ExpectedColumns: seq<string> :=
    ["Date", "End Date", "Day of Week", "Start Time", "End Time", "Name",
     "Description", "Location", "Division", "Collaborators", "Public"]

  /** The `Column` type: one of the names in `ExpectedColumns`. */
  datatype Column =
    | Date | EndDate | DayOfWeek | StartTime | EndTime | Name
    | Description | Location | Division | Collaborators | Public

  function ColumnName(c: Column): string {
    match c
    case Date => "Date"
    case EndDate => "End Date"
    case DayOfWeek => "Day of Week"
    case StartTime => "Start Time"
    case EndTime => "End Time"
    case Name => "Name"
    case Description => "Description"
    case Location => "Location"
    case Division => "Division"
    case Collaborators => "Collaborators"
    case Public => "Public"
  }

  /** The position of each column in the header, written out as a table
      (`ColumnPosition` shows it is where `indexOf` finds the name). */
  function Position(c: Column): (i: nat)
    ensures i < |ExpectedColumns|
  {
    match c
    case Date => 0
    case EndDate => 1
    case DayOfWeek => 2
    case StartTime => 3
    case EndTime => 4
    case Name => 5
    case Description => 6
    case Location => 7
    case Division => 8
    case Collaborators => 9
    case Public => 10
  }

  /** The table, column by column. */
  lemma PositionTable()
    ensures Position(Date) == 0 && Position(EndDate) == 1 && Position(StartTime) == 3
    ensures Position(EndTime) == 4 && Position(Name) == 5 && Position(Description) == 6
    ensures Position(Public) == 10
  {
  }

  /** `xs.indexOf(x)`: the first position holding `x`, or -1. */
  function IndexOf<T(==)>(xs: seq<T>, x: T): (i: int)
    ensures -1 <= i < |xs|
    ensures i == -1 <==> x !in xs
    ensures 0 <= i ==> xs[i] == x && x !in xs[..i]
  {
    IndexFrom(xs, x, 0)
  }

  /** The scan behind `IndexOf`, from position `k` on. */
  function IndexFrom<T(==)>(xs: seq<T>, x: T, k: nat): (i: int)
    requires k <= |xs|
    ensures i == -1 || k <= i < |xs|
    ensures i == -1 <==> forall j :: k <= j < |xs| ==> xs[j] != x
    ensures 0 <= i ==> xs[i] == x && forall j :: k <= j < i ==> xs[j] != x
    decreases |xs| - k
  {
    if k == |xs| then -1
    else if xs[k] == x then k
    else IndexFrom(xs, x, k + 1)
  }

  /** The header names are pairwise distinct. */
  lemma ExpectedColumnsDistinct()
    ensures forall i, j :: 0 <= i < j < |ExpectedColumns| ==> ExpectedColumns[i] != ExpectedColumns[j]
  {
  }

  /** Looking a column up by name in the header finds the position in the
      table: Date is 0, Start Time 3, Name 5, Public 10, and so on. */
  lemma ColumnPosition(c: Column)
    ensures IndexOf(ExpectedColumns, ColumnName(c)) == Position(c)
  {
    ExpectedColumnsDistinct();
    assert ExpectedColumns[Position(c)] == ColumnName(c);
  }

  /** `row[i]`: the cell at position `i`, or `undefined` past the end of a
      short row (the sheet service leaves out trailing empty cells). */
  function CellAt(row: Row, i: nat): (v: Option<string>)
  {
    if i < |row| then Some(row[i]) else None
  }

  /** `getValue(column)`: `row[EXPECTED_COLUMNS.indexOf(column)]`, with the
      position taken from the table, which `ColumnPosition` shows to be the
      one `indexOf` finds. The cell is present exactly when the row reaches
      that position. */
  function GetValue(row: Row, c: Column): (v: Option<string>)
    ensures v.Some? <==> Position(c) < |row|
    ensures v.Some? ==> v.value == row[Position(c)]
  {
    CellAt(row, Position(c))
  }

  /** The errors that end a run. */
  datatype Error =
    | MissingHeader                    // `spreadsheet[0]` is undefined
    | UnexpectedHeader(header: Row)    // "Unexpected header, aborting: ..."
    | MalformedRow(row: Row)           // a date or time cell that does not parse
    | SerializationError(cause: Option<string>)  // the encoder returned no value

  /** The `Event` record. `name` and `description` are whatever the cells
      hold, `undefined` included. `start` and `end` are in UTC. */
  datatype Event = Event(
    start: ZonedDateTime,
    end: ZonedDateTime,
    name: Option<string>,
    description: Option<string>,
    public: bool
  )

  /** The local date-time that a date cell and a 12-hour time cell denote, if
      both are present and parse: the date through `LocalDate.parse`, the time
      through `to24hour` and then `LocalTime.parse`. */
  function ParseLocalDateTime(lib: Library, dateCell: Option<string>, timeCell: Option<string>): Option<LocalDateTime>
  {
    if dateCell.None? then None
    else
      var localDate := lib.parseLocalDate(dateCell.value);
      if localDate.None? || timeCell.None? || !WellFormed12(timeCell.value) then None
      else
        var localTime := lib.parseLocalTime(To24Hour(timeCell.value));
        if localTime.None? then None
        else Some(LocalDateTime(localDate.value, localTime.value))
  }

  /** `parseDate(dateCol, timeCol)`: the date and time cells read as an
      America/Chicago wall-clock time and converted to UTC; a cell that is
      missing or does not parse rejects the row. */
  function ParseDate(lib: Library, row: Row, dateCol: Column, timeCol: Column): (r: Result<ZonedDateTime, Error>)
    ensures r.Success? <==> ParseLocalDateTime(lib, CellAt(row, Position(dateCol)), CellAt(row, Position(timeCol))).Some?
    ensures r.Success? ==> r.value == lib.chicagoToUtc(ParseLocalDateTime(lib, CellAt(row, Position(dateCol)), CellAt(row, Position(timeCol))).value)
    ensures r.Failure? ==> r.error == MalformedRow(row)
    // the same, cell by cell, in terms of the two parsers
    ensures var date := CellAt(row, Position(dateCol));
      var time := CellAt(row, Position(timeCol));
      r == if && date.Some? && lib.parseLocalDate(date.value).Some?
              && time.Some? && WellFormed12(time.value)
              && lib.parseLocalTime(To24Hour(time.value)).Some?
           then Success(lib.chicagoToUtc(LocalDateTime(
             lib.parseLocalDate(date.value).value,
             lib.parseLocalTime(To24Hour(time.value)).value)))
           else Failure(MalformedRow(row))
  {
    var local := ParseLocalDateTime(lib, GetValue(row, dateCol), GetValue(row, timeCol));
    if local.None? then Failure(MalformedRow(row))
    else Success(lib.chicagoToUtc(local.value))
  }

  /** The local start: cells 0 (Date) and 3 (Start Time). */
  function StartOf(lib: Library, row: Row): Option<LocalDateTime> {
    ParseLocalDateTime(lib, CellAt(row, 0), CellAt(row, 3))
  }

  /** The local end: cells 1 (End Date) and 4 (End Time). */
  function EndOf(lib: Library, row: Row): Option<LocalDateTime> {
    ParseLocalDateTime(lib, CellAt(row, 1), CellAt(row, 4))
  }

  /** `rowToEvent`: start from Date and Start Time, end from End Date and End
      Time, name and description copied from their cells, and `public` true
      exactly when the Public cell is the text "TRUE". */
  function RowToEvent(lib: Library, row: Row): (r: Result<Event, Error>)
    ensures r.Success? <==> StartOf(lib, row).Some? && EndOf(lib, row).Some?
    ensures r.Success? ==> r.value.start == lib.chicagoToUtc(StartOf(lib, row).value)
    ensures r.Success? ==> r.value.end == lib.chicagoToUtc(EndOf(lib, row).value)
    ensures r.Success? ==> r.value.name == CellAt(row, 5) && r.value.description == CellAt(row, 6)
    ensures r.Success? ==> (r.value.public <==> 10 < |row| && row[10] == "TRUE")
    ensures r.Failure? ==> r.error == MalformedRow(row)
  {
    PositionTable();
    var name := GetValue(row, Name);
    var description := GetValue(row, Description);
    var public := GetValue(row, Public) == Some("TRUE");
    var start := ParseDate(lib, row, Date, StartTime);
    if start.Failure? then Failure(start.error)
    else
      var end := ParseDate(lib, row, EndDate, EndTime);
      if end.Failure? then Failure(end.error)
      else Success(Event(start.value, end.value, name, description, public))
  }

  /** The Public test is a case-sensitive comparison with "TRUE": "FALSE",
      the empty cell and "true" all leave an event private. */
  lemma PublicIsExactlyTrue(lib: Library, row: Row)
    requires RowToEvent(lib, row).Success?
    requires 10 < |row| && (row[10] == "FALSE" || row[10] == "" || row[10] == "true")
    ensures !RowToEvent(lib, row).value.public
  {
    assert row[10] != "TRUE" by {
      assert row[10] == [] || row[10][0] != 'T' || |row[10]| != 4;
    }
  }

  /** `rowToEvent` as the callback handed to `map`. */
  function RowMapper(lib: Library): (f: Row -> Result<Event, Error>)
    ensures forall row :: f(row) == RowToEvent(lib, row)
  {
    row => RowToEvent(lib, row)
  }

  /** `spreadsheetToEvents` on the value of the sheet: a sheet without a
      header row or with a header other than `EXPECTED_COLUMNS` is rejected,
      and otherwise every data row is mapped by `rowToEvent`. What that
      mapping gives is stated by the lemmas below. */
  function SpreadsheetEvents(lib: Library, spreadsheet: seq<Row>): (r: Result<seq<Event>, Error>)
    ensures |spreadsheet| == 0 ==> r == Failure(MissingHeader)
    ensures |spreadsheet| > 0 && spreadsheet[0] != ExpectedColumns ==> r == Failure(UnexpectedHeader(spreadsheet[0]))
    ensures r.Success? ==> |spreadsheet| > 0 && spreadsheet[0] == ExpectedColumns && |r.value| == |spreadsheet| - 1
  {
    if |spreadsheet| == 0 then Failure(MissingHeader)
    else if !ArrayEquals(spreadsheet[0], ExpectedColumns) then Failure(UnexpectedHeader(spreadsheet[0]))
    else TryMap(spreadsheet[1..], RowMapper(lib))
  }

  /** A sheet with the expected header yields events exactly when every data
      row does: one bad row fails the whole sheet. */
  lemma SpreadsheetSucceeds(lib: Library, spreadsheet: seq<Row>)
    ensures SpreadsheetEvents(lib, spreadsheet).Success? <==>
      && |spreadsheet| > 0
      && spreadsheet[0] == ExpectedColumns
      && forall i :: 1 <= i < |spreadsheet| ==> RowToEvent(lib, spreadsheet[i]).Success?
  {
    if |spreadsheet| > 0 {
      var rows := spreadsheet[1..];
      assert forall i :: 0 <= i < |rows| ==> rows[i] == spreadsheet[i + 1];
    }
  }

  /** The events are the data rows' events, one per row, in sheet order. */
  lemma SpreadsheetEventsInOrder(lib: Library, spreadsheet: seq<Row>)
    requires SpreadsheetEvents(lib, spreadsheet).Success?
    ensures forall i :: 0 <= i < |spreadsheet| - 1 ==>
      && RowToEvent(lib, spreadsheet[i + 1]).Success?
      && SpreadsheetEvents(lib, spreadsheet).value[i] == RowToEvent(lib, spreadsheet[i + 1]).value
  {
    var rows := spreadsheet[1..];
    assert forall i :: 0 <= i < |rows| ==> rows[i] == spreadsheet[i + 1];
  }

  /** Past the header check, a failing sheet fails with the first data row
      that does not map, every earlier row having mapped. */
  lemma SpreadsheetFailsFast(lib: Library, spreadsheet: seq<Row>)
    requires |spreadsheet| > 0 && spreadsheet[0] == ExpectedColumns
    requires SpreadsheetEvents(lib, spreadsheet).Failure?
    ensures exists i ::
      && 1 <= i < |spreadsheet|
      && RowToEvent(lib, spreadsheet[i]).Failure?
      && (forall j :: 1 <= j < i ==> RowToEvent(lib, spreadsheet[j]).Success?)
      && SpreadsheetEvents(lib, spreadsheet).error == MalformedRow(spreadsheet[i])
  {
    var rows := spreadsheet[1..];
    var r := TryMap(rows, RowMapper(lib));
    var i :| 0 <= i < |rows| && FirstFailure(rows, RowMapper(lib), i) && r.error == RowMapper(lib)(rows[i]).error;
    assert forall j :: 0 <= j < |rows| ==> rows[j] == spreadsheet[j + 1];
    assert RowToEvent(lib, spreadsheet[i + 1]).Failure?;
  }

  /** A sheet with the expected header and one public data row, a meeting
      from 2:00 PM to 3:00 PM on one day: it yields one public event named
      "Meeting", starting at that day's 14:00 and ending at its 15:00, both
      Chicago time converted to UTC. */
  lemma MeetingSheet(lib: Library, day: LocalDate, two: LocalTime, three: LocalTime)
    requires lib.parseLocalDate("2023-09-01") == Some(day)
    requires lib.parseLocalTime("14:00") == Some(two)
    requires lib.parseLocalTime("15:00") == Some(three)
    ensures var row := ["2023-09-01", "2023-09-01", "Friday", "2:00 PM", "3:00 PM",
                        "Meeting", "Weekly sync", "", "", "", "TRUE"];
      SpreadsheetEvents(lib, [ExpectedColumns, row]) == Success([Event(
        lib.chicagoToUtc(LocalDateTime(day, two)),
        lib.chicagoToUtc(LocalDateTime(day, three)),
        Some("Meeting"), Some("Weekly sync"), true)])
  {
    var row := ["2023-09-01", "2023-09-01", "Friday", "2:00 PM", "3:00 PM",
                "Meeting", "Weekly sync", "", "", "", "TRUE"];
    assert row[0] == row[1] == "2023-09-01" && row[3] == "2:00 PM" && row[4] == "3:00 PM";
    assert row[5] == "Meeting" && row[6] == "Weekly sync" && row[10] == "TRUE";
    To24HourTwoPm();
    To24HourThreePm();
    RowWithTimes(lib, row, day, day, two, three);
    SingleRowSheet(lib, row);
  }

  /** A row reaching the Public column whose dates parse and whose times are
      well formed and parse once converted to 24-hour form maps to the event
      of those dates and times, with its Name, Description and Public cells. */
  lemma RowWithTimes(lib: Library, row: Row, startDay: LocalDate, endDay: LocalDate, start: LocalTime, end: LocalTime)
    requires |row| >= 11
    requires lib.parseLocalDate(row[0]) == Some(startDay)
    requires lib.parseLocalDate(row[1]) == Some(endDay)
    requires WellFormed12(row[3]) && lib.parseLocalTime(To24Hour(row[3])) == Some(start)
    requires WellFormed12(row[4]) && lib.parseLocalTime(To24Hour(row[4])) == Some(end)
    ensures RowToEvent(lib, row) == Success(Event(
      lib.chicagoToUtc(LocalDateTime(startDay, start)),
      lib.chicagoToUtc(LocalDateTime(endDay, end)),
      Some(row[5]), Some(row[6]), row[10] == "TRUE"))
  {
    assert StartOf(lib, row) == Some(LocalDateTime(startDay, start));
    assert EndOf(lib, row) == Some(LocalDateTime(endDay, end));
  }

  /** A sheet of the expected header and one data row yields that row's
      event alone, or that row's failure. */
  lemma SingleRowSheet(lib: Library, row: Row)
    ensures SpreadsheetEvents(lib, [ExpectedColumns, row]) ==
      if RowToEvent(lib, row).Success? then Success([RowToEvent(lib, row).value])
      else Failure(MalformedRow(row))
  {
    var sheet := [ExpectedColumns, row];
    assert sheet[0] == ExpectedColumns && sheet[1] == row && |sheet| == 2;
    var r := SpreadsheetEvents(lib, sheet);
    SpreadsheetSucceeds(lib, sheet);
    if RowToEvent(lib, row).Success? {
      SpreadsheetEventsInOrder(lib, sheet);
      assert r.value == [RowToEvent(lib, row).value];
    } else {
      SpreadsheetFailsFast(lib, sheet);
    }
  }

  /** The JavaScript array the sheet arrives in; `spreadsheetToEvents`
      removes its header row in place. */
  class Sheet {
    var rows: seq<Row>

    constructor (rows: seq<Row>)
      ensures this.rows == rows
    {
      this.rows := rows;
    }

    /** `Array.prototype.shift`: removes and returns the first row. */
    method Shift() returns (first: Option<Row>)
      modifies this
      ensures old(rows) == [] ==> first == None && rows == []
      ensures old(rows) != [] ==> first == Some(old(rows)[0]) && rows == old(rows)[1..]
    {
      if rows == [] {
        first := None;
      } else {
        first := Some(rows[0]);
        rows := rows[1..];
      }
    }
  }

  /** `spreadsheetToEvents(spreadsheet)`: the result is `SpreadsheetEvents` of
      the rows it is given; the header row has been shifted off the caller's
      array once the header check has passed, whether or not a data row then
      fails, and the array is untouched when the check fails. */
  method SpreadsheetToEvents(lib: Library, spreadsheet: Sheet) returns (r: Result<seq<Event>, Error>)
    modifies spreadsheet
    ensures r == SpreadsheetEvents(lib, old(spreadsheet.rows))
    ensures spreadsheet.rows ==
      if |old(spreadsheet.rows)| > 0 && old(spreadsheet.rows)[0] == ExpectedColumns
      then old(spreadsheet.rows)[1..] else old(spreadsheet.rows)
  {
    if |spreadsheet.rows| == 0 {
      return Failure(MissingHeader);
    }
    if !ArrayEquals(spreadsheet.rows[0], ExpectedColumns) {
      return Failure(UnexpectedHeader(spreadsheet.rows[0]));
    }
    var _ := spreadsheet.Shift();
    r := TryMap(spreadsheet.rows, RowMapper(lib));
  }

  // ---------------------------------------------------------------------------
  // The visibility filter

  /** `events.filter(e => e.public)`: the public events in their order. Each
      public event occurs as often as in the input, and nothing else occurs. */
  function PublicEvents(events: seq<Event>): (r: seq<Event>)
    ensures |r| <= |events|
    ensures forall i :: 0 <= i < |r| ==> r[i].public
    ensures forall e :: multiset(r)[e] == if e.public then multiset(events)[e] else 0
  {
    if events == [] then []
    else
      assert events == [events[0]] + events[1..];
      if events[0].public then [events[0]] + PublicEvents(events[1..])
      else PublicEvents(events[1..])
  }

  /** `xs` is `ys` with some elements left out (the greedy match of the
      elements of `xs`, in order, against `ys`). */
  predicate IsSubsequence<T(==)>(xs: seq<T>, ys: seq<T>)
    decreases |ys|
  {
    if xs == [] then true
    else if ys == [] then false
    else if xs[0] == ys[0] then IsSubsequence(xs[1..], ys[1..])
    else IsSubsequence(xs, ys[1..])
  }

  /** A subsequence has no more of any element than the sequence it is drawn
      from. */
  lemma {:induction false} SubsequenceMultiset<T>(xs: seq<T>, ys: seq<T>)
    requires IsSubsequence(xs, ys)
    ensures multiset(xs) <= multiset(ys)
    decreases |ys|
  {
    if xs != [] {
      assert ys == [ys[0]] + ys[1..];
      if xs[0] == ys[0] {
        SubsequenceMultiset(xs[1..], ys[1..]);
        assert xs == [xs[0]] + xs[1..];
      } else {
        SubsequenceMultiset(xs, ys[1..]);
      }
    }
  }

  /** Filtering keeps the order of the events it keeps. */
  lemma {:induction false} PublicEventsSubsequence(events: seq<Event>)
    ensures IsSubsequence(PublicEvents(events), events)
  {
    if events != [] {
      PublicEventsSubsequence(events[1..]);
      if !events[0].public {
        var r := PublicEvents(events[1..]);
        if r != [] {
          assert r[0].public;
        }
      }
    }
  }

  /** A sequence of public events is its own filter. */
  lemma {:induction false} PublicEventsOfPublic(events: seq<Event>)
    requires forall i :: 0 <= i < |events| ==> events[i].public
    ensures PublicEvents(events) == events
  {
    if events != [] {
      PublicEventsOfPublic(events[1..]);
    }
  }

  /** Filtering twice is filtering once. */
  lemma PublicEventsIdempotent(events: seq<Event>)
    ensures PublicEvents(PublicEvents(events)) == PublicEvents(events)
  {
    PublicEventsOfPublic(PublicEvents(events));
  }

  /** The filter is the only order-preserving selection of the input that
      holds public events only and every public event as often as the
      input does. */
  lemma {:induction false} PublicEventsUnique(events: seq<Event>, s: seq<Event>)
    requires IsSubsequence(s, events)
    requires forall i :: 0 <= i < |s| ==> s[i].public
    requires forall e: Event :: e.public ==> multiset(s)[e] == multiset(events)[e]
    ensures s == PublicEvents(events)
    decreases |events|
  {
    if events == [] {
      assert s == [];
    } else {
      var y, rest := events[0], events[1..];
      assert events == [y] + rest;
      if s != [] && s[0] == y {
        assert s == [s[0]] + s[1..];
        forall e: Event | e.public ensures multiset(s[1..])[e] == multiset(rest)[e] { }
        PublicEventsUnique(rest, s[1..]);
      } else {
        assert IsSubsequence(s, rest);
        if y.public {
          SubsequenceMultiset(s, rest);
          assert false;
        }
        forall e: Event | e.public ensures multiset(s)[e] == multiset(rest)[e] { }
        PublicEventsUnique(rest, s);
      }
    }
  }

  /** A data row whose Public cell is the text "TRUE". */
  predicate IsPublicRow(row: Row) {
    10 < |row| && row[10] == "TRUE"
  }

  /** The data rows whose Public cell is "TRUE", in their order. */
  function PublicRows(rows: seq<Row>): (r: seq<Row>)
    ensures |r| <= |rows|
    ensures forall i :: 0 <= i < |r| ==> IsPublicRow(r[i])
  {
    if rows == [] then []
    else if IsPublicRow(rows[0]) then [rows[0]] + PublicRows(rows[1..])
    else PublicRows(rows[1..])
  }

  /** Mapping every row and then keeping the public events is mapping only
      the rows marked "TRUE": the events the calendar shows are exactly those
      of the rows marked public, in sheet order. */
  lemma {:induction false} PublicEventsOfRows(lib: Library, rows: seq<Row>)
    requires TryMap(rows, RowMapper(lib)).Success?
    ensures TryMap(PublicRows(rows), RowMapper(lib)).Success?
    ensures PublicEvents(TryMap(rows, RowMapper(lib)).value) == TryMap(PublicRows(rows), RowMapper(lib)).value
  {
    var f := RowMapper(lib);
    if rows != [] {
      var e := f(rows[0]);
      assert e.Success?;
      var rest := TryMap(rows[1..], f);
      assert TryMap(rows, f).value == [e.value] + rest.value;
      PublicEventsOfRows(lib, rows[1..]);
      var events := TryMap(rows, f).value;
      assert events[1..] == rest.value;
      if IsPublicRow(rows[0]) {
        var p := [rows[0]] + PublicRows(rows[1..]);
        assert p[1..] == PublicRows(rows[1..]);
        assert PublicEvents(events) == [e.value] + PublicEvents(rest.value);
      } else {
        assert PublicEvents(events) == PublicEvents(rest.value);
      }
    }
  }

  /** The events of a well-formed sheet that reach the calendar by default
      are those of its data rows marked "TRUE". */
  lemma CalendarEvents(lib: Library, spreadsheet: seq<Row>)
    requires SpreadsheetEvents(lib, spreadsheet).Success?
    ensures TryMap(PublicRows(spreadsheet[1..]), RowMapper(lib)).Success?
    ensures IncludedEvents(SpreadsheetEvents(lib, spreadsheet).value, false)
      == TryMap(PublicRows(spreadsheet[1..]), RowMapper(lib)).value
  {
    PublicEventsOfRows(lib, spreadsheet[1..]);
  }

  /** `includePrivate ? events : events.filter(e => e.public)`. */
  function IncludedEvents(events: seq<Event>, includePrivate: bool): (r: seq<Event>)
    ensures includePrivate ==> r == events
    ensures !includePrivate ==> r == PublicEvents(events)
    ensures !includePrivate ==> forall i :: 0 <= i < |r| ==> r[i].public
    ensures IsSubsequence(r, events)
  {
    if includePrivate then
      SubsequenceRefl(events);
      events
    else
      PublicEventsSubsequence(events);
      PublicEvents(events)
  }

  lemma {:induction false} SubsequenceRefl<T>(xs: seq<T>)
    ensures IsSubsequence(xs, xs)
  {
    if xs != [] {
      SubsequenceRefl(xs[1..]);
    }
  }

  // ---------------------------------------------------------------------------
  // Attribute records for the encoder

  /** The `'utc'` and `'local'` input and output types of the encoder. */
  datatype TimeType = Utc | Local

  /** The `EventAttributes` record the encoder takes (the fields set here). */
  datatype EventAttributes = EventAttributes(
    calName: string,
    start: seq<int>,
    end: seq<int>,
    title: Option<string>,
    description: Option<string>,
    startInputType: TimeType,
    endInputType: TimeType,
    startOutputType: TimeType,
    endOutputType: TimeType
  )

  const CalendarName: string := "ACM Events"

  /** One event as encoder attributes: its UTC start and end as five-number
      arrays, declared as UTC on input and on output. */
  function ToAttributes(e: Event): (a: EventAttributes)
    ensures a.calName == CalendarName
    ensures a.title == e.name && a.description == e.description
    ensures |a.start| == 5 && FromDateArray(a.start) == e.start.(second := 0)
    ensures |a.end| == 5 && FromDateArray(a.end) == e.end.(second := 0)
    ensures a.startInputType == Utc && a.endInputType == Utc
    ensures a.startOutputType == Utc && a.endOutputType == Utc
  {
    EventAttributes(
      calName := CalendarName,
      start := ToDateArray(e.start),
      end := ToDateArray(e.end),
      title := e.name,
      description := e.description,
      startInputType := Utc,
      endInputType := Utc,
      startOutputType := Utc,
      endOutputType := Utc)
  }

  /** `includedEvents.map(e => {...})`: one record per included event, in
      order. */
  function EventsToAttributes(events: seq<Event>, includePrivate: bool): (r: seq<EventAttributes>)
    ensures var included := IncludedEvents(events, includePrivate);
      |r| == |included| && forall i :: 0 <= i < |r| ==> r[i] == ToAttributes(included[i])
  {
    var included := IncludedEvents(events, includePrivate);
    seq(|included|, i requires 0 <= i < |included| => ToAttributes(included[i]))
  }

  /** What `createEvents` returns: an error or a value. */
  datatype ReturnObject = ReturnObject(error: Option<string>, value: Option<string>)

  /** `eventsToIcs`: the encoder's document when it returns a non-empty value,
      otherwise its error. The encoder is a parameter. */
  function EventsToIcs(events: seq<Event>, includePrivate: bool, createEvents: seq<EventAttributes> -> ReturnObject): (r: Result<string, Error>)
    ensures var ro := createEvents(EventsToAttributes(events, includePrivate));
      && (r.Success? <==> ro.value.Some? && ro.value.value != "")
      && (r.Success? ==> r.value == ro.value.value)
      && (r.Failure? ==> r.error == SerializationError(ro.error))
  {
    var ro := createEvents(EventsToAttributes(events, includePrivate));
    if ro.value.None? || ro.value.value == "" then Failure(SerializationError(ro.error))
    else Success(ro.value.value)
  }

  /** The promise chain after the fetch: `spreadsheetToEvents` then
      `eventsToIcs` with its default, public events only. */
  function Convert(lib: Library, createEvents: seq<EventAttributes> -> ReturnObject, spreadsheet: seq<Row>): (r: Result<string, Error>)
    ensures SpreadsheetEvents(lib, spreadsheet).Failure? ==> r == Failure(SpreadsheetEvents(lib, spreadsheet).error)
    ensures SpreadsheetEvents(lib, spreadsheet).Success? ==> r == EventsToIcs(SpreadsheetEvents(lib, spreadsheet).value, false, createEvents)
  {
    var events := SpreadsheetEvents(lib, spreadsheet);
    if events.Failure? then Failure(events.error) else EventsToIcs(events.value, false, createEvents)
  }

  /** For a sheet that converts, the encoder is handed one record per data
      row marked "TRUE", in sheet order, and its answer decides the result:
      the document when it has a non-empty value, its error otherwise. */
  lemma ConvertSendsPublicRows(lib: Library, createEvents: seq<EventAttributes> -> ReturnObject, spreadsheet: seq<Row>)
    requires SpreadsheetEvents(lib, spreadsheet).Success?
    ensures TryMap(PublicRows(spreadsheet[1..]), RowMapper(lib)).Success?
    ensures var public := TryMap(PublicRows(spreadsheet[1..]), RowMapper(lib)).value;
      var ro := createEvents(seq(|public|, i requires 0 <= i < |public| => ToAttributes(public[i])));
      Convert(lib, createEvents, spreadsheet) ==
        if ro.value.Some? && ro.value.value != "" then Success(ro.value.value)
        else Failure(SerializationError(ro.error))
  {
    CalendarEvents(lib, spreadsheet);
    AttributesOfIncluded(SpreadsheetEvents(lib, spreadsheet).value, TryMap(PublicRows(spreadsheet[1..]), RowMapper(lib)).value);
  }

  /** The records of the default selection, given what that selection is. */
  lemma AttributesOfIncluded(events: seq<Event>, public: seq<Event>)
    requires IncludedEvents(events, false) == public
    ensures EventsToAttributes(events, false) == seq(|public|, i requires 0 <= i < |public| => ToAttributes(public[i]))
  {
  }

  /** The meeting sheet at the encoder: it is handed exactly one record,
      titled "Meeting", for the event from 14:00 to 15:00 Chicago time. */
  lemma MeetingCalendar(lib: Library, createEvents: seq<EventAttributes> -> ReturnObject,
                        day: LocalDate, two: LocalTime, three: LocalTime)
    requires lib.parseLocalDate("2023-09-01") == Some(day)
    requires lib.parseLocalTime("14:00") == Some(two)
    requires lib.parseLocalTime("15:00") == Some(three)
    ensures var row := ["2023-09-01", "2023-09-01", "Friday", "2:00 PM", "3:00 PM",
                        "Meeting", "Weekly sync", "", "", "", "TRUE"];
      var record := ToAttributes(Event(
        lib.chicagoToUtc(LocalDateTime(day, two)),
        lib.chicagoToUtc(LocalDateTime(day, three)),
        Some("Meeting"), Some("Weekly sync"), true));
      var ro := createEvents([record]);
      && record.title == Some("Meeting")
      && record.start == ToDateArray(lib.chicagoToUtc(LocalDateTime(day, two)))
      && record.end == ToDateArray(lib.chicagoToUtc(LocalDateTime(day, three)))
      && Convert(lib, createEvents, [ExpectedColumns, row]) ==
        if ro.value.Some? && ro.value.value != "" then Success(ro.value.value)
        else Failure(SerializationError(ro.error))
  {
    var row := ["2023-09-01", "2023-09-01", "Friday", "2:00 PM", "3:00 PM",
                "Meeting", "Weekly sync", "", "", "", "TRUE"];
    var e := Event(
      lib.chicagoToUtc(LocalDateTime(day, two)),
      lib.chicagoToUtc(LocalDateTime(day, three)),
      Some("Meeting"), Some("Weekly sync"), true);
    MeetingSheet(lib, day, two, three);
    PublicEventsOfPublic([e]);
    assert EventsToAttributes([e], false) == [ToAttributes(e)];
  }
}
