/** The date-time values of the js-joda library that the converter uses, and
    the library operations it calls, which are outside this model: parsing an
    ISO date, parsing an ISO time, and converting an America/Chicago wall-clock
    time to UTC (which depends on the time-zone database). Those operations are
    the fields of `Library`, so every statement about them holds for any
    parser and any zone conversion. */
module Joda {
  import opened Results

  datatype LocalDate = LocalDate(year: int, month: int, day: int)

  datatype LocalTime = LocalTime(hour: int, minute: int, second: int)

  datatype LocalDateTime = LocalDateTime(date: LocalDate, time: LocalTime)

  /** A `ZonedDateTime` in UTC, down to the second. */
  datatype ZonedDateTime = ZonedDateTime(year: int, month: int, day: int, hour: int, minute: int, second: int)

  datatype Library = Library(
    /** `LocalDate.parse`: `None` where it throws. */
    parseLocalDate: string -> Option<LocalDate>,
    /** `LocalTime.parse`: `None` where it throws. */
    parseLocalTime: string -> Option<LocalTime>,
    /** `ZonedDateTime.of(date, time, ZoneId.of("America/Chicago")).withZoneSameInstant(ZoneOffset.UTC)`. */
    chicagoToUtc: LocalDateTime -> ZonedDateTime
  )
}
