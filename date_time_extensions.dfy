/** Comparisons and ages on `DateTime` values (`DateTimeExtensions`).
    A `DateTime` is its tick count: 100-nanosecond units since midnight,
    1 January of year 1, up to the last tick of year 9999. Two values
    compare by their ticks. */
module DateTimeExtensions {
  import opened Wrappers

  const TicksPerSecond: int := 10_000_000
  const TicksPerDay: int := 864_000_000_000
  /** The ticks of `DateTime.MaxValue`: 23:59:59.9999999 on 31 December 9999. */
  const MaxTicks: int := 3_155_378_975_999_999_999

  type DateTime = t: int | 0 <= t <= MaxTicks

  /** A C# `int`. */
  type Int32 = x: int | -0x8000_0000 <= x <= 0x7FFF_FFFF

  /** Unary minus on an `int` in unchecked arithmetic: the most negative
      value is its own negation. */
  function Negate(x: Int32): (r: Int32)
    ensures x != -0x8000_0000 ==> r == -x
    ensures x == -0x8000_0000 ==> r == x
  {
    if x == -0x8000_0000 then x else -x
  }

  // ---------------------------------------------------------------------
  // ShouldBeWithinRangeOf

  /** `DateTime.AddSeconds` for a whole number of seconds: the shifted
      instant, or an `ArgumentOutOfRangeException` on the `value`
      parameter when it falls outside the representable range. */
  function AddSeconds(d: DateTime, seconds: int): (r: Result<DateTime, Exception>)
    ensures r.Success? <==> 0 <= d + seconds * TicksPerSecond <= MaxTicks
    ensures r.Success? ==> r.value - d == seconds * TicksPerSecond
    ensures r.Failure? ==> r.error == ArgumentOutOfRange("value")
  {
    var t := d + seconds * TicksPerSecond;
    if 0 <= t <= MaxTicks then Success(t) else Failure(ArgumentOutOfRange("value"))
  }

  /** `ShouldBeWithinRangeOf(currentTime, expectedTime, secondsRange)`:
      builds the bounds `expectedTime` minus and plus `secondsRange`
      seconds (the lower one first, so its exception is the one seen) and
      tests `currentTime` strictly between them. The result holds exactly
      when the range is positive and `currentTime` is less than that many
      seconds away from `expectedTime`. */
  function ShouldBeWithinRangeOf(currentTime: DateTime, expectedTime: DateTime, secondsRange: Int32 := 10): (r: Result<bool, Exception>)
    ensures r.Failure? ==> r.error == ArgumentOutOfRange("value")
    ensures secondsRange != -0x8000_0000 ==>
              (r.Success? <==> 0 <= expectedTime - secondsRange * TicksPerSecond <= MaxTicks
                               && 0 <= expectedTime + secondsRange * TicksPerSecond <= MaxTicks)
    ensures r.Success? ==>
              (r.value <==> secondsRange > 0
                            && expectedTime - secondsRange * TicksPerSecond < currentTime
                            && currentTime < expectedTime + secondsRange * TicksPerSecond)
  {
    match AddSeconds(expectedTime, Negate(secondsRange))
    case Failure(e) => Failure(e)
    case Success(lowDate) =>
      match AddSeconds(expectedTime, secondsRange)
      case Failure(e) => Failure(e)
      case Success(highDate) => Success(currentTime > lowDate && currentTime < highDate)
  }

  /** A zero or negative range never holds, whatever the two instants. */
  lemma NonPositiveRangeNeverWithin(currentTime: DateTime, expectedTime: DateTime, secondsRange: Int32)
    requires secondsRange <= 0
    ensures ShouldBeWithinRangeOf(currentTime, expectedTime, secondsRange) != Success(true)
  {
  }

  /** Being within range is symmetric in the two instants whenever both
      calls succeed. */
  lemma WithinRangeSymmetric(a: DateTime, b: DateTime, secondsRange: Int32)
    requires ShouldBeWithinRangeOf(a, b, secondsRange).Success?
    requires ShouldBeWithinRangeOf(b, a, secondsRange).Success?
    ensures ShouldBeWithinRangeOf(a, b, secondsRange) == ShouldBeWithinRangeOf(b, a, secondsRange)
  {
  }

  /** Nine seconds either side is within the default ten, ten seconds is
      not; fifteen seconds is within a range of twenty, twenty-five is
      not. */
  lemma WithinRangeExamples(c: DateTime)
    requires 30 * TicksPerSecond <= c <= MaxTicks - 60 * TicksPerSecond
    ensures ShouldBeWithinRangeOf(c, c + 9 * TicksPerSecond) == Success(true)
    ensures ShouldBeWithinRangeOf(c, c - 9 * TicksPerSecond) == Success(true)
    ensures ShouldBeWithinRangeOf(c, c + 10 * TicksPerSecond) == Success(false)
    ensures ShouldBeWithinRangeOf(c, c - 10 * TicksPerSecond) == Success(false)
    ensures ShouldBeWithinRangeOf(c, c + 30 * TicksPerSecond) == Success(false)
    ensures ShouldBeWithinRangeOf(c, c + 15 * TicksPerSecond, 20) == Success(true)
    ensures ShouldBeWithinRangeOf(c, c + 25 * TicksPerSecond, 20) == Success(false)
  {
  }

  /** A bound outside the calendar raises instead of answering. */
  lemma WithinRangeAtMinValue()
    ensures ShouldBeWithinRangeOf(0, 0) == Failure(ArgumentOutOfRange("value"))
  {
  }

  // ---------------------------------------------------------------------
  // Between

  /** `Between(datetime, startTime, endTime, timesInclusive)`: strictly
      inside the range by default, or inside it with both ends included. */
  function Between(datetime: DateTime, startTime: DateTime, endTime: DateTime, timesInclusive: bool := false): (r: bool)
    ensures r ==> startTime <= datetime <= endTime
    ensures r && !timesInclusive ==> datetime != startTime && datetime != endTime
    ensures startTime < datetime < endTime ==> r
    ensures timesInclusive && (datetime == startTime || datetime == endTime) && startTime <= endTime ==> r
  {
    if timesInclusive then datetime >= startTime && datetime <= endTime
    else datetime > startTime && datetime < endTime
  }

  /** The exclusive test is the stronger one. */
  lemma ExclusiveImpliesInclusive(datetime: DateTime, startTime: DateTime, endTime: DateTime)
    ensures Between(datetime, startTime, endTime) ==> Between(datetime, startTime, endTime, true)
  {
  }

  /** The two tests differ only at the ends of the range. */
  lemma InclusiveDiffersOnlyAtEnds(datetime: DateTime, startTime: DateTime, endTime: DateTime)
    requires datetime != startTime && datetime != endTime
    ensures Between(datetime, startTime, endTime) == Between(datetime, startTime, endTime, true)
  {
  }

  /** An empty or reversed range holds nothing. */
  lemma ReversedRangeIsEmpty(datetime: DateTime, startTime: DateTime, endTime: DateTime, timesInclusive: bool)
    requires endTime < startTime
    ensures !Between(datetime, startTime, endTime, timesInclusive)
  {
  }

  lemma BetweenExamples(today: DateTime)
    requires TicksPerDay * 2 <= today <= MaxTicks - TicksPerDay * 2
    ensures Between(today, today - TicksPerDay, today + TicksPerDay)
    ensures !Between(today, today - 2 * TicksPerDay, today - TicksPerDay, true)
    ensures !Between(today, today + TicksPerDay, today + 2 * TicksPerDay, true)
    ensures !Between(today, today, today + TicksPerDay) && Between(today, today, today + TicksPerDay, true)
    ensures !Between(today, today - TicksPerDay, today) && Between(today, today - TicksPerDay, today, true)
    ensures !Between(0, 0, 0) && Between(0, 0, 0, true)
  {
  }

  // ---------------------------------------------------------------------
  // Calendar

  /** A day of the Gregorian calendar. */
  datatype Date = Date(year: int, month: int, day: int)

  predicate IsLeapYear(year: int) {
    year % 4 == 0 && (year % 100 != 0 || year % 400 == 0)
  }

  function DaysInMonth(year: int, month: int): (r: int)
    ensures 28 <= r <= 31
  {
    if month == 2 then (if IsLeapYear(year) then 29 else 28)
    else if month == 4 || month == 6 || month == 9 || month == 11 then 30
    else 31
  }

  /** The days of the months from `month` to December. */
  function DaysFrom(year: int, month: int): (r: nat)
    requires 1 <= month <= 13
    ensures month <= 12 ==> r >= 28
    decreases 13 - month
  {
    if month == 13 then 0 else DaysInMonth(year, month) + DaysFrom(year, month + 1)
  }

  /** The month and day of the day that is `d` days after the first of
      `month`. */
  function MonthAndDay(year: int, d: nat, month: int): (r: (int, int))
    requires 1 <= month <= 12 && d < DaysFrom(year, month)
    ensures month <= r.0 <= 12 && 1 <= r.1 <= DaysInMonth(year, r.0)
    decreases 13 - month
  {
    if d < DaysInMonth(year, month) then (month, d + 1)
    else MonthAndDay(year, d - DaysInMonth(year, month), month + 1)
  }

  /** The date that is `d` days after 1 January of `year`. */
  function DateAfter(year: int, d: nat): (r: Date)
    requires year >= 1
    ensures r.year >= year && 1 <= r.month <= 12 && 1 <= r.day <= DaysInMonth(r.year, r.month)
    decreases d
  {
    if d < DaysFrom(year, 1) then
      var md := MonthAndDay(year, d, 1);
      Date(year, md.0, md.1)
    else DateAfter(year + 1, d - DaysFrom(year, 1))
  }

  /** The calendar date of an instant (`Year`, `Month` and `Day`); the
      time of day is dropped. */
  function DateOf(t: DateTime): (r: Date)
    ensures r.year >= 1 && 1 <= r.month <= 12 && 1 <= r.day <= DaysInMonth(r.year, r.month)
  {
    DateAfter(1, t / TicksPerDay)
  }

  /** `default(DateTime)` is midnight on 1 January of year 1. */
  lemma DefaultDate()
    ensures DateOf(0) == Date(1, 1, 1)
  {
  }

  /** The days in the years before `year`, counted from 1 January of
      year 1. */
  function DaysBeforeYear(year: int): nat
    requires year >= 1
    decreases year
  {
    if year == 1 then 0 else DaysBeforeYear(year - 1) + DaysFrom(year - 1, 1)
  }

  /** The days from 1 January of year 1 to `d`: the number `DateTime`
      counts whole days by. */
  function DayNumber(d: Date): int
    requires d.year >= 1 && 1 <= d.month <= 12
  {
    DaysBeforeYear(d.year) + (DaysFrom(d.year, 1) - DaysFrom(d.year, d.month)) + (d.day - 1)
  }

  /** The month and day found `d` days into the year lie exactly `d` days
      after the first of `month`. */
  lemma {:induction false} MonthAndDayNumber(year: int, d: nat, month: int)
    requires 1 <= month <= 12 && d < DaysFrom(year, month)
    ensures var md := MonthAndDay(year, d, month);
            md.0 <= 12 && (DaysFrom(year, month) - DaysFrom(year, md.0)) + (md.1 - 1) == d
    decreases 13 - month
  {
    if d >= DaysInMonth(year, month) {
      MonthAndDayNumber(year, d - DaysInMonth(year, month), month + 1);
    }
  }

  /** `DateAfter(year, d)` is `d` days after 1 January of `year`. */
  lemma {:induction false} DateAfterNumber(year: int, d: nat)
    requires year >= 1
    ensures DayNumber(DateAfter(year, d)) == DaysBeforeYear(year) + d
    decreases d
  {
    if d < DaysFrom(year, 1) {
      MonthAndDayNumber(year, d, 1);
    } else {
      DateAfterNumber(year + 1, d - DaysFrom(year, 1));
    }
  }

  /** The calendar date of an instant counts back to the instant's whole
      days: `DateOf` loses nothing but the time of day. */
  lemma DateOfDayNumber(t: DateTime)
    ensures DayNumber(DateOf(t)) == t / TicksPerDay
  {
    DateAfterNumber(1, t / TicksPerDay);
  }

  /** Lexicographic order on (year, month, day). */
  predicate OnOrBefore(x: Date, y: Date) {
    x.year < y.year
    || (x.year == y.year && (x.month < y.month || (x.month == y.month && x.day <= y.day)))
  }

  // ---------------------------------------------------------------------
  // GetAge

  /** The age computation of `GetAge` on calendar dates: the difference
      in years, one less when the birthday (month and day) has not yet
      come round in the assessment year. The result is the number of
      anniversaries of `birth` that have been reached on `at`. */
  function Age(birth: Date, at: Date): (r: int)
    ensures OnOrBefore(Date(birth.year + r, birth.month, birth.day), at)
    ensures !OnOrBefore(Date(birth.year + r + 1, birth.month, birth.day), at)
  {
    var age := at.year - birth.year;
    if at.month < birth.month || (at.month == birth.month && at.day < birth.day) then age - 1 else age
  }

  /** `GetAge(dateOfBirth, assessmentDate)`: the age at `assessmentDate`,
      where the default `DateTime` (also when passed explicitly) stands for
      the current instant `now`, which the caller supplies. */
  function GetAge(dateOfBirth: DateTime, now: DateTime, assessmentDate: DateTime := 0): (r: int)
    ensures var birth, at := DateOf(dateOfBirth), DateOf(if assessmentDate == 0 then now else assessmentDate);
            OnOrBefore(Date(birth.year + r, birth.month, birth.day), at)
            && !OnOrBefore(Date(birth.year + r + 1, birth.month, birth.day), at)
  {
    var at := if assessmentDate == 0 then now else assessmentDate;
    Age(DateOf(dateOfBirth), DateOf(at))
  }

  /** The clock is read only for the default assessment date. */
  lemma ExplicitDateIgnoresClock(dateOfBirth: DateTime, now1: DateTime, now2: DateTime, assessmentDate: DateTime)
    requires assessmentDate != 0
    ensures GetAge(dateOfBirth, now1, assessmentDate) == GetAge(dateOfBirth, now2, assessmentDate)
    ensures GetAge(dateOfBirth, now1, assessmentDate) == GetAge(dateOfBirth, assessmentDate)
  {
  }

  /** The age is the difference in years, or one less exactly when the
      birthday has not come round yet. */
  lemma AgeBounds(birth: Date, at: Date)
    ensures at.year - birth.year - 1 <= Age(birth, at) <= at.year - birth.year
    ensures Age(birth, at) == at.year - birth.year
            <==> OnOrBefore(Date(at.year, birth.month, birth.day), at)
  {
  }

  /** The age is negative exactly for a birth after the assessment date. */
  lemma AgeNegativeIffFutureBirth(birth: Date, at: Date)
    ensures Age(birth, at) < 0 <==> !OnOrBefore(birth, at)
  {
    var r := Age(birth, at);
    if r >= 0 {
      assert OnOrBefore(birth, Date(birth.year + r, birth.month, birth.day));
    } else {
      assert OnOrBefore(at, Date(birth.year + r + 1, birth.month, birth.day)) by {
        assert !OnOrBefore(Date(birth.year + r + 1, birth.month, birth.day), at);
      }
    }
  }

  /** Assessed on the birth date itself the age is zero, and each year
      later it is one more. */
  lemma AgeOnAnniversary(birth: Date, years: int)
    ensures Age(birth, Date(birth.year + years, birth.month, birth.day)) == years
  {
  }

  /** The library's tests: born ten years before, assessed five years
      before, either some days before the birthday (age 4) or on or after
      it (age 5); and the same five and ten years ahead (-6 and -5). */
  lemma AgeExamples()
    ensures Age(Date(2016, 3, 11), Date(2021, 3, 9)) == 4
    ensures Age(Date(2016, 3, 10), Date(2021, 3, 10)) == 5
    ensures Age(Date(2016, 3, 1), Date(2021, 3, 10)) == 5
    ensures Age(Date(2036, 3, 11), Date(2031, 3, 9)) == -6
    ensures Age(Date(2036, 3, 10), Date(2031, 3, 10)) == -5
  {
  }
}
