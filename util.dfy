/** src/util.ts: 12-hour to 24-hour time normalisation, element-wise array
    equality, and the conversion of a date-time to the five-number array the
    calendar encoder takes. */
module Util {
  import opened Strings
  import opened Joda

  // ---------------------------------------------------------------------------
  // to24hour

  /** The shape `to24hour` needs: at least a time and a period separated by a
      space, and a time made of an hour of decimal digits, a colon and a
      minute. Further space- or colon-separated pieces are ignored, as the
      destructuring assignments in the source ignore them. The hour is at
      most `Number.MAX_SAFE_INTEGER`, so that `parseInt` reads it exactly and
      `String` writes it back in plain decimal. */
  predicate WellFormed12(time12: string) {
    var parts := Split(time12, ' ');
    |parts| >= 2 &&
    var hourMinute := Split(parts[0], ':');
    && |hourMinute| >= 2
    && hourMinute[0] != []
    && IsDigits(hourMinute[0])
    && ParseNat(hourMinute[0]) <= MaxSafeInteger
  }

  /** `const [time, period] = time12.split(" ")`: the period. */
  function Period(time12: string): string
    requires WellFormed12(time12)
  {
    Split(time12, ' ')[1]
  }

  /** `const [hour, minute] = time.split(":")`: the hour text. */
  function HourText(time12: string): (h: string)
    requires WellFormed12(time12)
    ensures h != [] && IsDigits(h) && ParseNat(h) <= MaxSafeInteger
  {
    Split(Split(time12, ' ')[0], ':')[0]
  }

  /** `const [hour, minute] = time.split(":")`: the minute text. */
  function MinuteText(time12: string): string
    requires WellFormed12(time12)
  {
    Split(Split(time12, ' ')[0], ':')[1]
  }

  /** The hour rule of `to24hour`. For a 12-hour clock hour 1..12, the result
      is the same position on the dial (equal modulo 12) in the morning half
      0..11 for "AM" and in the afternoon half 12..23 for "PM"; any other
      period leaves the hour alone. */
  function Hour24(hour: nat, period: string): (h: nat)
    ensures 1 <= hour <= 12 && period == "AM" ==> h < 12 && h % 12 == hour % 12
    ensures 1 <= hour <= 12 && period == "PM" ==> 12 <= h < 24 && h % 12 == hour % 12
    ensures period != "AM" && period != "PM" ==> h == hour
    ensures period == "PM" && hour < 12 ==> h == hour + 12
    ensures period == "AM" && hour == 12 ==> h == 0
    ensures !(period == "PM" && hour < 12) && !(period == "AM" && hour == 12) ==> h == hour
  {
    if period == "PM" && hour < 12 then hour + 12
    else if period == "AM" && hour == 12 then 0
    else hour
  }

  /** The inverse of `Hour24` on the 24-hour day: the 12-hour clock hour and
      its period. */
  function To12Hour(h: nat): (r: (nat, string))
    requires h < 24
    ensures 1 <= r.0 <= 12 && (r.1 == "AM" || r.1 == "PM")
    ensures Hour24(r.0, r.1) == h
  {
    if h == 0 then (12, "AM")
    else if h < 12 then (h, "AM")
    else if h == 12 then (12, "PM")
    else (h - 12, "PM")
  }

  /** `Hour24` is one-to-one on well-formed 12-hour inputs, so with `To12Hour`
      it is a bijection between {1..12} x {AM, PM} and {0..23}. */
  lemma Hour24RoundTrip(hour: nat, period: string)
    requires 1 <= hour <= 12 && (period == "AM" || period == "PM")
    ensures To12Hour(Hour24(hour, period)) == (hour, period)
  {
  }

  /** `to24hour`: the 24-hour hour, padded with zeros to at least two
      digits, a colon, and the minute text unchanged. The output is at least
      two digits, then a colon, then the input's minute text. */
  function To24Hour(time12: string): (r: string)
    requires WellFormed12(time12)
    ensures var m := MinuteText(time12);
      && |r| >= 3 + |m|
      && IsDigits(r[..|r| - |m| - 1])
      && r[|r| - |m| - 1] == ':'
      && r[|r| - |m|..] == m
  {
    var hourInt := Hour24(ParseNat(HourText(time12)), Period(time12));
    var hour := PadStart(NatToString(hourInt), 2, '0');
    var m := MinuteText(time12);
    var r := hour + ":" + m;
    assert r[..|r| - |m| - 1] == hour;
    assert IsDigits(hour) by {
      var digits := NatToString(hourInt);
      forall i | 0 <= i < |hour| ensures IsDigit(hour[i]) {
        if i >= |hour| - |digits| {
          assert hour[i] == hour[|hour| - |digits|..][i - (|hour| - |digits|)];
        }
      }
    }
    r
  }

  /** Reading the output of `to24hour` back as "HH:mm" gives the converted hour
      as a number of at least two digits and the input's minute text, and for
      an input hour 1..12 the output is exactly two digits, a colon and the
      minute. */
  lemma {:induction false} To24HourReadBack(time12: string)
    requires WellFormed12(time12)
    ensures var fields := Split(To24Hour(time12), ':');
      && |fields| == 2
      && IsDigits(fields[0]) && |fields[0]| >= 2
      && ParseNat(fields[0]) == Hour24(ParseNat(HourText(time12)), Period(time12))
      && fields[1] == MinuteText(time12)
    ensures 1 <= ParseNat(HourText(time12)) <= 12 ==> |To24Hour(time12)| == 3 + |MinuteText(time12)|
  {
    var h := Hour24(ParseNat(HourText(time12)), Period(time12));
    var minute := MinuteText(time12);
    assert To24Hour(time12) == PadStart(NatToString(h), 2, '0') + ":" + minute;
    assert ':' !in minute;
    PaddedHourReadBack(h, minute);
  }

  /** The read-back of `To24HourReadBack` for a given hour and minute text. */
  lemma PaddedHourReadBack(h: nat, minute: string)
    requires ':' !in minute
    ensures var padded := PadStart(NatToString(h), 2, '0');
      && Split(padded + ":" + minute, ':') == [padded, minute]
      && IsDigits(padded) && |padded| >= 2
      && ParseNat(padded) == h
      && (h < 100 ==> |padded| == 2)
  {
    var padded := PadStart(NatToString(h), 2, '0');
    PaddedHour(h);
    assert ':' !in padded by {
      forall i | 0 <= i < |padded| ensures padded[i] != ':' {
        assert IsDigit(padded[i]);
      }
    }
    assert padded + ":" + minute == padded + [':'] + minute;
    SplitTwo(padded, ':', minute);
  }

  /** The zero-padded hour is digits that read back as the hour. */
  lemma PaddedHour(h: nat)
    ensures var padded := PadStart(NatToString(h), 2, '0');
      && IsDigits(padded) && |padded| >= 2
      && ParseNat(padded) == h
      && (h < 100 ==> |padded| == 2)
  {
    var digits := NatToString(h);
    var padded := PadStart(digits, 2, '0');
    var k := |padded| - |digits|;
    assert padded == Repeat('0', k) + digits;
    ParseNatLeadingZeros(k, digits);
    ParseNatToString(h);
  }

  /** `to24hour` on an input written as hour digits, colon, minute, space,
      period. */
  lemma {:induction false} To24HourOf(hour: string, minute: string, period: string)
    requires hour != [] && IsDigits(hour) && ParseNat(hour) <= MaxSafeInteger
    requires ':' !in minute && ' ' !in minute && ' ' !in period
    ensures WellFormed12(hour + ":" + minute + " " + period)
    ensures HourText(hour + ":" + minute + " " + period) == hour
    ensures MinuteText(hour + ":" + minute + " " + period) == minute
    ensures Period(hour + ":" + minute + " " + period) == period
    ensures To24Hour(hour + ":" + minute + " " + period)
         == PadStart(NatToString(Hour24(ParseNat(hour), period)), 2, '0') + ":" + minute
  {
    assert ':' !in hour && ' ' !in hour by {
      forall i | 0 <= i < |hour| ensures hour[i] != ':' && hour[i] != ' ' {
        assert IsDigit(hour[i]);
      }
    }
    var time := hour + ":" + minute;
    assert ' ' !in time;
    assert hour + ":" + minute + " " + period == time + [' '] + period;
    SplitFirst(time, ' ', period);
    SplitNoSeparator(period, ' ');
    assert time == hour + [':'] + minute;
    SplitFirst(hour, ':', minute);
    SplitNoSeparator(minute, ':');
  }

  // Worked examples: 12 AM is midnight, 12 PM is noon, PM hours before noon
  // gain twelve, AM hours are zero-padded.

  lemma To24HourMidnight()
    ensures WellFormed12("12:00 AM") && To24Hour("12:00 AM") == "00:00"
  {
    assert "12" + ":" + "00" + " " + "AM" == "12:00 AM";
    assert ParseNat("12") == 12 by { assert "12"[..1] == "1"; }
    To24HourIs("12", "00", "AM", 12, 0, "00:00");
  }

  lemma To24HourNoon()
    ensures WellFormed12("12:00 PM") && To24Hour("12:00 PM") == "12:00"
  {
    assert "12" + ":" + "00" + " " + "PM" == "12:00 PM";
    assert ParseNat("12") == 12 by { assert "12"[..1] == "1"; }
    To24HourIs("12", "00", "PM", 12, 12, "12:00");
  }

  lemma To24HourAfternoon()
    ensures WellFormed12("1:05 PM") && To24Hour("1:05 PM") == "13:05"
  {
    assert "1" + ":" + "05" + " " + "PM" == "1:05 PM";
    To24HourIs("1", "05", "PM", 1, 13, "13:05");
  }

  lemma To24HourTwoPm()
    ensures WellFormed12("2:00 PM") && To24Hour("2:00 PM") == "14:00"
  {
    assert "2" + ":" + "00" + " " + "PM" == "2:00 PM";
    To24HourIs("2", "00", "PM", 2, 14, "14:00");
  }

  lemma To24HourThreePm()
    ensures WellFormed12("3:00 PM") && To24Hour("3:00 PM") == "15:00"
  {
    assert "3" + ":" + "00" + " " + "PM" == "3:00 PM";
    To24HourIs("3", "00", "PM", 3, 15, "15:00");
  }

  lemma To24HourLastMinute()
    ensures WellFormed12("11:59 PM") && To24Hour("11:59 PM") == "23:59"
  {
    assert "11" + ":" + "59" + " " + "PM" == "11:59 PM";
    assert ParseNat("11") == 11 by { assert "11"[..1] == "1"; }
    To24HourIs("11", "59", "PM", 11, 23, "23:59");
  }

  lemma To24HourMorning()
    ensures WellFormed12("6:00 AM") && To24Hour("6:00 AM") == "06:00"
  {
    assert "6" + ":" + "00" + " " + "AM" == "6:00 AM";
    To24HourIs("6", "00", "AM", 6, 6, "06:00");
  }

  /** `To24HourOf` with the hour arithmetic and the printing done by the
      caller. */
  lemma To24HourIs(hour: string, minute: string, period: string, h12: nat, h24: nat, expected: string)
    requires hour != [] && IsDigits(hour) && ParseNat(hour) == h12 && h12 <= MaxSafeInteger
    requires ':' !in minute && ' ' !in minute && ' ' !in period
    requires Hour24(h12, period) == h24
    requires PadStart(NatToString(h24), 2, '0') + ":" + minute == expected
    ensures WellFormed12(hour + ":" + minute + " " + period)
    ensures To24Hour(hour + ":" + minute + " " + period) == expected
  {
    To24HourOf(hour, minute, period);
  }

  // ---------------------------------------------------------------------------
  // arrayEquals

  /** `arrayEquals(xs, ys)`: equal lengths and `===` at every index, which for
      the strings of a spreadsheet row is value equality, so the result is
      exactly sequence equality. */
  function ArrayEquals<T(==)>(xs: seq<T>, ys: seq<T>): (r: bool)
    ensures r <==> xs == ys
  {
    |xs| == |ys| && forall i :: 0 <= i < |xs| ==> xs[i] == ys[i]
  }

  // ---------------------------------------------------------------------------
  // toDateArray

  /** The date-time an encoder reads back from a five-number array, with the
      seconds at zero. */
  function FromDateArray(a: seq<int>): ZonedDateTime
    requires |a| == 5
  {
    ZonedDateTime(a[0], a[1], a[2], a[3], a[4], 0)
  }

  /** `toDateArray`: year, month, day, hour and minute, in that order; the
      seconds are dropped. */
  function ToDateArray(t: ZonedDateTime): (a: seq<int>)
    ensures |a| == 5
    ensures FromDateArray(a) == t.(second := 0)
  {
    [t.year, t.month, t.day, t.hour, t.minute]
  }

  /** Two date-times give the same array exactly when they differ at most in
      their seconds. */
  lemma ToDateArrayInjective(t: ZonedDateTime, u: ZonedDateTime)
    ensures ToDateArray(t) == ToDateArray(u) <==> t.(second := 0) == u.(second := 0)
  {
    if t.(second := 0) == u.(second := 0) {
      assert ToDateArray(t) == ToDateArray(u);
    }
  }

  /** Writing an array out and reading it back gives the same array. */
  lemma DateArrayRoundTrip(a: seq<int>)
    requires |a| == 5
    ensures ToDateArray(FromDateArray(a)) == a
  {
  }
}
