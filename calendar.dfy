/** The calendar checks that pandas applies when it turns the text of a filename
    timestamp into a `Timestamp`: a proleptic Gregorian date, a time of day, and
    the range of a nanosecond timestamp (1677-09-21 00:12:43 to 2262-04-11
    23:47:16). */
module Calendar {

  predicate IsLeapYear(y: int) {
    (y % 4 == 0 && y % 100 != 0) || y % 400 == 0
  }

  function DaysInMonth(y: int, m: int): (n: int)
    requires 1 <= m <= 12
    ensures 28 <= n <= 31
    ensures m == 2 ==> (n == 29 <==> IsLeapYear(y))
  {
    if m == 2 then (if IsLeapYear(y) then 29 else 28)
    else if m == 4 || m == 6 || m == 9 || m == 11 then 30
    else 31
  }

  /** A wall-clock date and time, as written in a filename. */
  datatype WallClock = WallClock(year: int, month: int, day: int, hour: int, minute: int)

  /** Lexicographic order on the fields, oldest first. */
  predicate NotAfter(a: WallClock, b: WallClock) {
    a.year < b.year
    || (a.year == b.year && (a.month < b.month
    || (a.month == b.month && (a.day < b.day
    || (a.day == b.day && (a.hour < b.hour
    || (a.hour == b.hour && a.minute <= b.minute)))))))
  }

  /** The first and last whole minutes a nanosecond `Timestamp` can hold. */
  const EarliestMinute := WallClock(1677, 9, 21, 0, 13)
  const LatestMinute := WallClock(2262, 4, 11, 23, 47)

  /** The fields name an existing calendar day and time of day. */
  predicate IsCalendarTime(t: WallClock) {
    1 <= t.month <= 12 && 1 <= t.day <= DaysInMonth(t.year, t.month)
    && 0 <= t.hour < 24 && 0 <= t.minute < 60
  }

  /** pandas parses the fields into a `Timestamp` without raising. */
  predicate Representable(t: WallClock) {
    IsCalendarTime(t) && NotAfter(EarliestMinute, t) && NotAfter(t, LatestMinute)
  }

  /** February 29th exists exactly in leap years. */
  lemma LeapDay(y: int)
    requires 1678 <= y <= 2261
    ensures Representable(WallClock(y, 2, 29, 0, 0)) <==> IsLeapYear(y)
  {
  }

  /** The range bounds cut inside their days. */
  lemma RangeEdges()
    ensures !Representable(WallClock(1677, 9, 21, 0, 12)) && Representable(WallClock(1677, 9, 21, 0, 13))
    ensures Representable(WallClock(2262, 4, 11, 23, 47)) && !Representable(WallClock(2262, 4, 11, 23, 48))
    ensures !Representable(WallClock(1900, 2, 29, 0, 0)) && Representable(WallClock(2000, 2, 29, 0, 0))
  {
  }
}
