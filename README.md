# calendar-converter in Dafny

calendar-converter reads the ACM events spreadsheet and prints an iCalendar
document. The spreadsheet is a grid of text cells. Its first row must be the
fixed header `EXPECTED_COLUMNS`. Every later row is one event:

- a start built from its Date and Start Time cells;
- an end built from its End Date and End Time cells;
- a name and a description;
- a Public flag.

Times are written on a 12-hour clock ("2:00 PM"). They are normalised to
"HH:mm" (`to24hour`), read as America/Chicago wall-clock time and converted
to UTC. By default only public events reach the calendar. Each event becomes
an attribute record for the `ics` encoder, with its dates as
`[year, month, day, hour, minute]` arrays.

This project models the pure pipeline between the network fetch and the
encoder:

- `results.dfy` (module `Results`): `Option` stands for `undefined`. `Result`
  stands for a value or a thrown exception. `TryMap` is `Array.prototype.map`
  with a callback that may throw.
- `strings.dfy` (module `Strings`): the JavaScript string operations that
  `to24hour` uses: `split`, `parseInt` on decimal digits, `String(n)` and
  `padStart`.
- `joda.dfy` (module `Joda`): the js-joda date-time values. The date parser,
  the time parser and the Chicago-to-UTC conversion are fields of a
  `Library` value passed in as a parameter.
- `util.dfy` (module `Util`): `src/util.ts`, which holds `to24hour`,
  `arrayEquals` and `toDateArray`.
- `index.dfy` (module `Index`): the core of `src/index.ts`:
  - the header constant and column lookup;
  - `rowToEvent` and `spreadsheetToEvents`;
  - the in-place `shift` of the header row, as the method
    `Index.SpreadsheetToEvents` on a `Sheet` object;
  - the visibility filter and the attribute mapping of `eventsToIcs`;
  - the chain `spreadsheetToEvents` then `eventsToIcs`.

A short row may end before its Name or Description cell. The code copies
`row[i]` as it is, which is then `undefined`. The model keeps this: `name`
and `description` are `Option<string>`, and a missing cell is `None`.

## Model

| member | source | states |
|---|---|---|
| Util.Hour24 | src/util.ts:8-12 | PM with an hour below 12 adds 12. 12 AM becomes 0. Any other hour and period, such as 0 AM, 13 PM or a period other than AM/PM, leaves the hour unchanged. For hours 1..12, AM gives 0..11 and PM gives 12..23, and the dial position (hour mod 12) is kept. |
| Util.To12Hour | src/util.ts:8-12 | Every 24-hour hour 0..23 is `Hour24` of exactly one 12-hour clock hour 1..12 with AM or PM. |
| Util.Hour24RoundTrip | src/util.ts:8-12 | `To12Hour(Hour24(h, p)) == (h, p)` for h in 1..12 and p in {AM, PM}, so the hour rule is a bijection onto 0..23. |
| Util.HourText | src/util.ts:5-8 | The hour field of a well-formed input is a non-empty run of decimal digits, and its value is at most `Number.MAX_SAFE_INTEGER`. |
| Util.To24Hour | src/util.ts:4-15 | The output is at least two digits, then ':', then the input's minute text unchanged. |
| Util.PaddedHourReadBack | src/util.ts:14 | The zero-padded hour is at least two digits, reads back as the hour, and is exactly two digits below 100. Joined to a minute by ':', it splits back into those two fields. |
| Util.To24HourReadBack | src/util.ts:4-15 | Splitting the output at ':' gives exactly two fields. The first is at least two digits and parses to the converted hour. The second is the input's minute text, unchanged. For an input hour in 1..12 the output is two digits, a colon and the minute. |
| Util.To24HourOf | src/util.ts:4-15 | For an input "hour:minute period", the hour, minute and period fields are those three pieces. The output is the converted hour padded to two digits, then ':' and the minute. |
| Util.To24HourMidnight | src/util.ts:11-12 | "12:00 AM" becomes "00:00". |
| Util.To24HourNoon | src/util.ts:8-12 | "12:00 PM" becomes "12:00". |
| Util.To24HourAfternoon | src/util.ts:9-10 | "1:05 PM" becomes "13:05". |
| Util.To24HourTwoPm | src/util.ts:9-10 | "2:00 PM" becomes "14:00". |
| Util.To24HourThreePm | src/util.ts:9-10 | "3:00 PM" becomes "15:00". |
| Util.To24HourLastMinute | src/util.ts:9-10 | "11:59 PM" becomes "23:59". |
| Util.To24HourMorning | src/util.ts:14 | "6:00 AM" becomes "06:00", with the hour zero-padded. |
| Util.ArrayEquals | src/util.ts:18-20 | True exactly when the two arrays are equal: same length and equal at every index. So it is reflexive and false whenever the lengths differ. |
| Util.ToDateArray | src/util.ts:22-24 | Five numbers that read back as the date-time with its seconds dropped. |
| Util.ToDateArrayInjective | src/util.ts:22-24 | Two date-times give the same array exactly when they agree on year, month, day, hour and minute. |
| Util.DateArrayRoundTrip | src/util.ts:22-24 | Any five-number array is the `toDateArray` of the date-time it denotes. |
| Strings.Split | src/util.ts:5-6 | `split` returns at least one piece, and no piece contains the separator. |
| Strings.JoinSplit | src/util.ts:5-6 | Joining the pieces of `split` with the separator gives back the input. |
| Strings.SplitJoin | src/util.ts:5-6 | Splitting a join of separator-free pieces gives back those pieces. |
| Strings.ParseNatToString | src/util.ts:8-14 | `parseInt(String(n))` is `n`. |
| Strings.ParseNatLeadingZeros | src/util.ts:14 | Leading zeros added by `padStart` do not change the parsed value. |
| Strings.NatToString | src/util.ts:14 | `String(n)`, for every safe integer (at most 2^53 - 1), which covers every hour `to24hour` can produce, is a run of decimal digits with no leading zero. It is one digit exactly when n < 10, and at most two when n < 100. |
| Strings.PadStart | src/util.ts:14 | The result has length max(length, width). It ends with the input and begins with fill characters only. |
| Index.ColumnPosition | src/index.ts:12-17 | `EXPECTED_COLUMNS.indexOf(name)` for each column is its fixed position: Date 0, End Date 1, Start Time 3, End Time 4, Name 5, Description 6, Public 10. |
| Index.ExpectedColumnsDistinct | src/index.ts:12 | The header names are pairwise distinct, so each lookup finds one column only. |
| Index.IndexOf | src/index.ts:70 | `indexOf` is -1 exactly when the element is absent. Otherwise it is the first position holding the element. |
| Index.GetValue | src/index.ts:69-71 | The cell is present exactly when the row reaches the column's position, and it is the cell at that position. |
| Index.ParseDate | src/index.ts:81-86 | Success exactly when the date cell is present and `LocalDate.parse` accepts it, and the time cell is present, well formed and `LocalTime.parse` accepts its `to24hour` form. The value is the Chicago-to-UTC conversion of that local date and time. A missing cell, a malformed time or a refused parse rejects the row with `MalformedRow`. |
| Index.RowToEvent | src/index.ts:63-95 | The row maps exactly when both start and end parse. The start comes from Date and Start Time, the end from End Date and End Time. Name and description are copied from cells 5 and 6. `public` holds exactly when cell 10 is "TRUE". A failure names the row. |
| Index.PublicIsExactlyTrue | src/index.ts:93 | Public cells "FALSE", "" and "true" give a private event. |
| Results.TryMap | src/index.ts:108 | `map` with a throwing callback succeeds exactly when every element maps. On success it has one result per element, in order. On failure it throws the first element's failure, every earlier element having mapped. |
| Index.SpreadsheetEvents | src/index.ts:101-109 | An empty sheet fails with a missing header. A first row other than `EXPECTED_COLUMNS` fails with that header. A success has the expected header and one event per data row. |
| Index.SpreadsheetSucceeds | src/index.ts:103-108 | The sheet yields events exactly when its header is `EXPECTED_COLUMNS` and every data row maps. |
| Index.SpreadsheetEventsInOrder | src/index.ts:107-108 | Event i is `rowToEvent` of row i+1, so sheet order is kept. |
| Index.SpreadsheetFailsFast | src/index.ts:108 | With a correct header, a failing sheet fails with the first row that does not map. No partial list of events is produced. |
| Index.SingleRowSheet | src/index.ts:101-109 | A header plus one data row yields that row's event alone, or that row's failure. |
| Index.RowWithTimes | src/index.ts:81-95 | A row of at least eleven cells whose Date and End Date parse, and whose Start and End Time parse after `to24hour`, maps to the event from the start day and time to the end day and time. Its name, description and Public flag come from cells 5, 6 and 10. |
| Index.MeetingSheet | src/index.ts:63-109 | Header plus one row for a "Meeting" on 2023-09-01 from "2:00 PM" to "3:00 PM" marked "TRUE" gives one public event. It starts at the UTC of that day's 14:00 Chicago time and ends at its 15:00. |
| Index.Sheet.Shift | src/index.ts:107 | `shift` removes the first row and returns it. On an empty array it returns `undefined` and changes nothing. |
| Index.SpreadsheetToEvents | src/index.ts:101-109 | The result is `SpreadsheetEvents` of the rows passed in. The caller's array loses its header row once the header check passes, whether or not a data row then fails. It is unchanged when the check fails. |
| Index.PublicEvents | src/index.ts:119 | Every kept event is public. Each public event is kept as often as it occurs in the input, and nothing else is kept. |
| Index.PublicEventsSubsequence | src/index.ts:119 | The filter keeps the input's relative order: its result is a subsequence of the input. |
| Index.PublicEventsIdempotent | src/index.ts:119 | Filtering twice is filtering once. |
| Index.PublicEventsOfPublic | src/index.ts:119 | A list of public events is its own filter. |
| Index.PublicEventsUnique | src/index.ts:119 | The filter is the only ordered selection of the input that holds only public events and every public event as often as the input. |
| Index.SubsequenceMultiset | src/index.ts:119 | An ordered selection holds no element more often than its source. |
| Index.IncludedEvents | src/index.ts:119 | With `includePrivate` the events are unchanged. Otherwise the result is the filter `PublicEvents`: every public event is kept as often as it occurs, nothing private is kept, and order is kept. |
| Index.PublicEventsOfRows | src/index.ts:108-119 | Mapping all rows and then keeping the public events equals mapping only the rows whose Public cell is "TRUE". |
| Index.CalendarEvents | src/index.ts:101-119 | For a sheet that converts, the events reaching the encoder by default are those of its rows marked "TRUE", in sheet order. |
| Index.ToAttributes | src/index.ts:123-139 | The calendar name is "ACM Events". Title and description are copied from name and description. Start and end are five-number arrays that read back as the event's UTC start and end without seconds. All four input and output types are UTC. |
| Index.EventsToAttributes | src/index.ts:119-140 | One record per included event, in order. |
| Index.ConvertSendsPublicRows | src/index.ts:101-151 | For a sheet that converts, the encoder gets one record per data row marked "TRUE", in sheet order, each the attributes of that row's event. The run yields the encoder's value when it is present and non-empty, and otherwise fails with the encoder's error. |
| Index.MeetingCalendar | src/index.ts:63-151 | For the one-row Meeting sheet, the encoder gets exactly one record. Its title is "Meeting", and its start and end arrays are those of the UTC instants of 14:00 and 15:00 Chicago time on that day. The encoder's answer decides the result as above. |

## Left out

- `fetchSpreadsheet` (the Google Sheets call) and the promise chain's `console.log`, `console.error` and `process.exit(1)` are I/O. `Index.Convert` starts from the fetched grid and ends with a `Result`.
- Index.EventsToIcs and Index.Convert carry contracts that only describe how they compose. What actually reaches the encoder is stated by `Index.ConvertSendsPublicRows` and `Index.MeetingCalendar`.
- `LocalDate.parse`, `LocalTime.parse` and the America/Chicago to UTC conversion depend on js-joda and its time-zone database. They are the fields of `Joda.Library`. Every property holds for any parser and any zone conversion, and nothing is claimed about daylight-saving gaps.
- `createEvents` and its iCalendar serialisation are not part of this model. It is the parameter `createEvents`, returning a `ReturnObject` whose error is reduced to an optional message.
- Cell values are text. The sheet service can also return numbers or booleans, which the model does not represent.
- Index.RowToEvent: every row-level exception becomes `MalformedRow(row)`. In the code that is a js-joda parse exception, or a `TypeError` from calling `split` on an `undefined` cell, and neither carries the row.
- Index.ParseDate: a time cell that is not "digits:minute period" rejects the row, and so the whole sheet, for every parser. The code would call `to24hour` on it anyway. For example, "14:00" without a period becomes "14:00" and maps whenever `LocalTime.parse` accepts it. `parseInt` also accepts text such as "+2" or "2a", and the hour can become `NaN`, after which `LocalTime.parse` decides. Such inputs are outside the modelled shape of `to24hour`.
- Util.To24Hour: requires the well-formed shape `WellFormed12`. The hour must be decimal digits, which excludes signs, spaces and `NaN`. It must also be at most `Number.MAX_SAFE_INTEGER` (2^53 - 1). Above that a JavaScript number loses precision: "99999999999999999999" reads as 10^20. From 10^21 on, `String` switches to exponent form. The model's exact arithmetic does not follow either effect, so it does not cover such hours.
- Index.SpreadsheetEvents: an empty grid yields `MissingHeader`. The code fails there with a `TypeError` from reading the length of `undefined`. Only the fact that it fails is kept, not the message.
- Time values carry no fractional seconds. The model keeps `second` only to show that `toDateArray` drops it.
