/** Calendar arithmetic used by the shift engine.
    A date ("YYYY-MM-DD" in the application) is a day ordinal counted from
    1970-01-01, the epoch of JavaScript's Date; a time of day ("HH:MM") is a
    number of minutes since midnight. */
module Calendar {

  /** Days since 1970-01-01 (negative before it). */
  type Day = int

  /** Minutes since midnight of a "HH:MM" time. */
  type TimeOfDay = t: int | 0 <= t < 1440

  const MinutesPerDay := 1440

  /** A "YYYY-MM" month key. */
  datatype Month = Month(year: int, month: int)

  /** `getDay()`: 0 = Sunday … 6 = Saturday; 1970-01-01 was a Thursday. */
  function Weekday(d: Day): (w: int)
    ensures 0 <= w < 7
  {
    (d + 4) % 7
  }

  /** Saturday or Sunday. */
  predicate IsWeekend(w: int) {
    w == 0 || w == 6
  }

  /** The "YYYY-MM" prefix of a date: the proleptic Gregorian year and month
      of a day ordinal (days-to-civil conversion; Dafny's `/` on a positive
      divisor is floor division, which is what the conversion needs). */
  function MonthOf(d: Day): Month {
    var z := d + 719468;
    var era := z / 146097;
    var doe := z - era * 146097;
    var yoe := (doe - doe / 1460 + doe / 36524 - doe / 146096) / 365;
    var doy := doe - (365 * yoe + yoe / 4 - yoe / 100);
    var mp := (5 * doy + 2) / 153;
    var m := if mp < 10 then mp + 3 else mp - 9;
    Month(yoe + era * 400 + (if m <= 2 then 1 else 0), m)
  }
}
