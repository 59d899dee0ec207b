/**
 Civil dates from day numbers, as WARC timestamps need them: proleptic Gregorian
 arithmetic over every integer day, the epoch being day 0.

 The reference is the calendar itself: leap years, month lengths and the day that
 follows a date.
 */
module Calendar {

  datatype Date = Date(year: int, month: int, day: int)

  // -------------------------------------------------------------------------
  // The calendar

  predicate IsLeap(year: int) {
    year % 4 == 0 && (year % 100 != 0 || year % 400 == 0)
  }

  function DaysInMonth(year: int, month: int): int {
    if month == 2 then (if IsLeap(year) then 29 else 28)
    else if month == 4 || month == 6 || month == 9 || month == 11 then 30
    else 31
  }

  predicate IsDate(d: Date) {
    1 <= d.month <= 12 && 1 <= d.day <= DaysInMonth(d.year, d.month)
  }

  function NextDay(d: Date): Date {
    if d.day < DaysInMonth(d.year, d.month) then d.(day := d.day + 1)
    else if d.month < 12 then Date(d.year, d.month + 1, 1)
    else Date(d.year + 1, 1, 1)
  }

  predicate Before(a: Date, b: Date) {
    || a.year < b.year
    || (a.year == b.year && (a.month < b.month || (a.month == b.month && a.day < b.day)))
  }

  // -------------------------------------------------------------------------
  // The algorithm

  /** Integer division that truncates toward zero. */
  function TruncDiv(a: int, b: int): int
    requires b > 0
  {
    if a >= 0 then a / b else -(-a / b)
  }

  function YearOfEra(dayOfEra: int): int {
    (dayOfEra - dayOfEra / 1460 + dayOfEra / 36524 - dayOfEra / 146096) / 365
  }

  function CivilFromDays(days: int): Date {
    var shifted := days + 719468;
    CivilInEra(EraOf(shifted), shifted - EraOf(shifted) * 146097)
  }

  function EraOf(shifted: int): int {
    TruncDiv(if shifted >= 0 then shifted else shifted - 146096, 146097)
  }

  function CivilInEra(era: int, dayOfEra: int): Date {
    var yearOfEra := YearOfEra(dayOfEra);
    CivilInYear(yearOfEra + era * 400, dayOfEra - (365 * yearOfEra + yearOfEra / 4 - yearOfEra / 100))
  }

  /** The date of a day of a year that begins on 1 March. */
  function CivilInYear(year: int, dayOfYear: int): Date {
    var monthPrime := (5 * dayOfYear + 2) / 153;
    var day := dayOfYear - (153 * monthPrime + 2) / 5 + 1;
    var month := if monthPrime < 10 then monthPrime + 3 else monthPrime - 9;
    Date(if month <= 2 then year + 1 else year, month, day)
  }

  // -------------------------------------------------------------------------
  // Eras of 400 years, years that begin in March

  /** First day of a year of the era, counted from 1 March; year 400 is where the next era begins. */
  function YearStart(yearOfEra: int): int {
    365 * yearOfEra + yearOfEra / 4 - yearOfEra / 100 + yearOfEra / 400
  }

  /** Year `100c + 4q + t` of the era: where it starts, and how many leap days precede it. */
  lemma YearStartAt(c: int, q: int, t: int)
    requires 0 <= c < 4 && 0 <= q < 25 && 0 <= t < 4
    ensures var y := 100 * c + 4 * q + t;
            && y / 4 == 25 * c + q && y / 100 == c && 0 <= y < 400
            && YearStart(y) == 36524 * c + 1461 * q + 365 * t
            && YearStart(y + 1) == YearStart(y) + (if t == 3 && (q < 24 || c == 3) then 366 else 365)
  {
  }

  /** The days of an era by century, four-year cycle, year and day; the correction terms cancel. */
  lemma YearOfEraAt(c: int, q: int, t: int, u: int)
    requires 0 <= c < 4 && 0 <= q < 25 && 0 <= t < 4
    requires 0 <= u < if t == 3 && (q < 24 || c == 3) then 366 else 365
    ensures YearOfEra(36524 * c + 1461 * q + 365 * t + u) == 100 * c + 4 * q + t
  {
    var dayOfEra := 36524 * c + 1461 * q + 365 * t + u;
    var carry := if 24 * c + q + 365 * t + u >= 1460 then 1 else 0;
    var last := if dayOfEra == 146096 then 1 else 0;
    assert dayOfEra / 1460 == 25 * c + q + carry;
    assert dayOfEra / 36524 == c + last;
    assert dayOfEra / 146096 == last;
  }

  lemma SplitDayOfEra(dayOfEra: int) returns (c: int, q: int, t: int, u: int)
    requires 0 <= dayOfEra < 146097
    ensures 0 <= c < 4 && 0 <= q < 25 && 0 <= t < 4
    ensures 0 <= u < if t == 3 && (q < 24 || c == 3) then 366 else 365
    ensures dayOfEra == 36524 * c + 1461 * q + 365 * t + u
  {
    c := if dayOfEra == 146096 then 3 else dayOfEra / 36524;
    var inCentury := dayOfEra - 36524 * c;
    q := inCentury / 1461;
    var inCycle := inCentury - 1461 * q;
    t := if inCycle == 1460 then 3 else inCycle / 365;
    u := inCycle - 365 * t;
  }

  lemma YearOfEraIsExact(dayOfEra: int)
    requires 0 <= dayOfEra < 146097
    ensures 0 <= YearOfEra(dayOfEra) < 400
    ensures YearStart(YearOfEra(dayOfEra)) <= dayOfEra < YearStart(YearOfEra(dayOfEra) + 1)
  {
    var c, q, t, u := SplitDayOfEra(dayOfEra);
    YearOfEraAt(c, q, t, u);
    YearStartAt(c, q, t);
  }

  // -------------------------------------------------------------------------
  // The position of a day: era, year of the era, day of that year

  datatype Position = Position(era: int, year: int, day: int)

  function PositionOf(days: int): Position {
    PositionInEra((days + 719468) / 146097, (days + 719468) % 146097)
  }

  function PositionInEra(era: int, dayOfEra: int): Position {
    Position(era, YearOfEra(dayOfEra), dayOfEra - YearStart(YearOfEra(dayOfEra)))
  }

  /** The era's last year ends in a leap day, as does every fourth year unless a century ends. */
  function YearLength(year: int): int {
    YearStart(year + 1) - YearStart(year)
  }

  predicate IsPosition(p: Position) {
    0 <= p.year < 400 && 0 <= p.day < YearLength(p.year)
  }

  function DaysAt(p: Position): int {
    p.era * 146097 + YearStart(p.year) + p.day - 719468
  }

  /** The year of a position as the calendar counts it, by the March it begins in. */
  function CivilYear(p: Position): int {
    p.year + p.era * 400
  }

  function DateAt(p: Position): Date {
    CivilInYear(CivilYear(p), p.day)
  }

  /** Shifting a negative number before truncating division gives the floor. */
  lemma EraIsFloor(shifted: int)
    ensures EraOf(shifted) == shifted / 146097
    ensures shifted - EraOf(shifted) * 146097 == shifted % 146097
  {
    if shifted < 0 {
      assert (146096 - shifted) / 146097 == -(shifted / 146097);
    }
  }

  lemma PositionInEraIsExact(era: int, dayOfEra: int)
    requires 0 <= dayOfEra < 146097
    ensures IsPosition(PositionInEra(era, dayOfEra))
    ensures DaysAt(PositionInEra(era, dayOfEra)) == era * 146097 + dayOfEra - 719468
  {
    YearOfEraIsExact(dayOfEra);
  }

  lemma PositionIsExact(days: int)
    ensures IsPosition(PositionOf(days)) && DaysAt(PositionOf(days)) == days
  {
    PositionInEraIsExact((days + 719468) / 146097, (days + 719468) % 146097);
  }

  lemma YearFormula(year: int)
    requires 0 <= year < 400
    ensures YearStart(year) == 365 * year + year / 4 - year / 100
  {
  }

  lemma SameDayOfYear(dayOfEra: int)
    requires 0 <= dayOfEra < 146097
    ensures var year := YearOfEra(dayOfEra);
            dayOfEra - (365 * year + year / 4 - year / 100) == dayOfEra - YearStart(year)
  {
    YearOfEraIsExact(dayOfEra);
    YearFormula(YearOfEra(dayOfEra));
  }

  lemma CivilInEraIsDateAt(era: int, dayOfEra: int)
    requires 0 <= dayOfEra < 146097
    ensures CivilInEra(era, dayOfEra)
            == DateAt(PositionInEra(era, dayOfEra))
  {
    SameDayOfYear(dayOfEra);
  }

  lemma CivilIsDateAt(days: int)
    ensures CivilFromDays(days) == DateAt(PositionOf(days))
  {
    var shifted := days + 719468;
    EraIsFloor(shifted);
    CivilInEraIsDateAt(EraOf(shifted), shifted % 146097);
  }

  // -------------------------------------------------------------------------
  // One day later

  function NextPosition(p: Position): Position {
    if p.day + 1 < YearLength(p.year) then p.(day := p.day + 1)
    else if p.year < 399 then Position(p.era, p.year + 1, 0)
    else Position(p.era + 1, 0, 0)
  }

  lemma ErasKeepLeapYears(era: int, year: int)
    ensures IsLeap(year + era * 400) <==> IsLeap(year)
  {
    assert (year + era * 400) / 4 == year / 4 + era * 100;
    assert (year + era * 400) / 100 == year / 100 + era * 4;
    assert (year + era * 400) / 400 == year / 400 + era;
  }

  lemma LeapAt(c: int, q: int, t: int)
    requires 0 <= c < 4 && 0 <= q < 25 && 0 <= t < 4
    ensures IsLeap(100 * c + 4 * q + t + 1) <==> t == 3 && (q < 24 || c == 3)
  {
  }

  lemma YearLengthIsLeap(year: int)
    requires 0 <= year < 400
    ensures YearLength(year) == if IsLeap(year + 1) then 366 else 365
  {
    var c, q, t := year / 100, year % 100 / 4, year % 4;
    assert year == 100 * c + 4 * q + t;
    YearStartAt(c, q, t);
    LeapAt(c, q, t);
  }

  /** Within a year that begins on 1 March, days run through the months in calendar order. */
  lemma CivilInYearIsDate(year: int, day: int)
    requires 0 <= day < if IsLeap(year + 1) then 366 else 365
    ensures IsDate(CivilInYear(year, day))
    ensures day + 1 < (if IsLeap(year + 1) then 366 else 365) ==>
              CivilInYear(year, day + 1) == NextDay(CivilInYear(year, day))
    ensures day + 1 == (if IsLeap(year + 1) then 366 else 365) ==>
              CivilInYear(year + 1, 0) == NextDay(CivilInYear(year, day))
  {
  }

  lemma YearsAreLong(a: int)
    requires 0 <= a < 400
    ensures YearStart(a) + 365 <= YearStart(a + 1)
  {
    assert (a + 1) / 4 >= a / 4 && (a + 1) / 400 - (a + 1) / 100 >= a / 400 - a / 100 - 1;
    assert (a + 1) / 100 > a / 100 ==> (a + 1) / 4 > a / 4;
  }

  lemma {:induction false} YearStartIncreases(a: int, b: int)
    requires 0 <= a < b <= 400
    ensures YearStart(a) + 365 <= YearStart(b)
    decreases b - a
  {
    YearsAreLong(a);
    if a + 1 < b {
      YearStartIncreases(a + 1, b);
    }
  }

  /** A day has one position only. */
  lemma PositionIsUnique(p: Position)
    requires IsPosition(p)
    ensures PositionOf(DaysAt(p)) == p
  {
    var q := PositionOf(DaysAt(p));
    PositionIsExact(DaysAt(p));
    if p.year < 399 {
      YearStartIncreases(p.year + 1, 400);
    }
    if q.year < 399 {
      YearStartIncreases(q.year + 1, 400);
    }
    assert p.era == q.era;
    if p.year < q.year {
      if p.year + 1 < q.year {
        YearStartIncreases(p.year + 1, q.year);
      }
    } else if q.year < p.year {
      if q.year + 1 < p.year {
        YearStartIncreases(q.year + 1, p.year);
      }
    }
  }

  lemma NextPositionIsOneMore(p: Position)
    requires IsPosition(p)
    ensures IsPosition(NextPosition(p)) && DaysAt(NextPosition(p)) == DaysAt(p) + 1
  {
    YearLengthIsLeap(NextPosition(p).year);
  }

  lemma NextPositionIsNextDay(days: int)
    ensures PositionOf(days + 1) == NextPosition(PositionOf(days))
  {
    var p := PositionOf(days);
    assert IsPosition(p) && DaysAt(p) == days by { PositionIsExact(days); }
    NextPositionIsOneMore(p);
    PositionIsUnique(NextPosition(p));
  }

  lemma CivilYearLength(p: Position)
    requires 0 <= p.year < 400
    ensures YearLength(p.year) == if IsLeap(CivilYear(p) + 1) then 366 else 365
  {
    YearLengthIsLeap(p.year);
    ErasKeepLeapYears(p.era, p.year + 1);
    assert CivilYear(p) + 1 == p.year + 1 + p.era * 400;
  }

  lemma NextCivilYear(p: Position)
    requires 0 <= p.year < 400 && 0 <= p.day < YearLength(p.year)
    ensures var next := NextPosition(p);
            if p.day + 1 < YearLength(p.year) then CivilYear(next) == CivilYear(p) && next.day == p.day + 1
            else CivilYear(next) == CivilYear(p) + 1 && next.day == 0
  {
  }

  lemma DaysOfYear(year: int, day: int, length: int)
    requires length == (if IsLeap(year + 1) then 366 else 365) && 0 <= day < length
    ensures IsDate(CivilInYear(year, day))
    ensures NextDay(CivilInYear(year, day))
            == if day + 1 < length then CivilInYear(year, day + 1) else CivilInYear(year + 1, 0)
  {
    CivilInYearIsDate(year, day);
  }

  lemma NextDateAt(p: Position)
    requires 0 <= p.year < 400 && 0 <= p.day < YearLength(p.year)
    ensures DateAt(NextPosition(p))
            == if p.day + 1 < YearLength(p.year) then CivilInYear(CivilYear(p), p.day + 1)
               else CivilInYear(CivilYear(p) + 1, 0)
  {
    NextCivilYear(p);
  }

  lemma DateAtPosition(p: Position)
    requires IsPosition(p)
    ensures IsDate(DateAt(p)) && DateAt(NextPosition(p)) == NextDay(DateAt(p))
  {
    NextDateAt(p);
    CivilYearLength(p);
    DaysOfYear(CivilYear(p), p.day, YearLength(p.year));
  }

  /** Every integer is a valid date, and one more is the next day of the calendar. */
  lemma CivilFollowsTheCalendar(days: int)
    ensures IsDate(CivilFromDays(days))
    ensures CivilFromDays(days + 1) == NextDay(CivilFromDays(days))
  {
    PositionIsExact(days);
    CivilIsDateAt(days);
    CivilIsDateAt(days + 1);
    NextPositionIsNextDay(days);
    DateAtPosition(PositionOf(days));
  }

  lemma EpochIs1970()
    ensures CivilFromDays(0) == Date(1970, 1, 1)
  {
    assert YearOfEra(719468 % 146097) == 369;
  }

  lemma CivilIsOrdered(a: int, b: int)
    requires a < b
    ensures Before(CivilFromDays(a), CivilFromDays(b))
  {
    forall day
      ensures IsLaterNextDay(CivilFromDays, day)
    {
      CivilFollowsTheCalendar(day);
      NextDayIsLater(CivilFromDays(day));
    }
    ChainIsOrdered(CivilFromDays, a, b);
  }

  ghost predicate IsLaterNextDay(dateOf: int -> Date, day: int) {
    Before(dateOf(day), dateOf(day + 1))
  }

  lemma {:induction false} ChainIsOrdered(dateOf: int -> Date, a: int, b: int)
    requires a < b && forall day :: IsLaterNextDay(dateOf, day)
    ensures Before(dateOf(a), dateOf(b))
    decreases b - a
  {
    assert IsLaterNextDay(dateOf, b - 1);
    if a < b - 1 {
      ChainIsOrdered(dateOf, a, b - 1);
      BeforeIsTransitive(dateOf(a), dateOf(b - 1), dateOf(b));
    }
  }

  lemma NextDayIsLater(d: Date)
    ensures Before(d, NextDay(d))
  {
  }

  lemma BeforeIsTransitive(a: Date, b: Date, c: Date)
    requires Before(a, b) && Before(b, c)
    ensures Before(a, c)
  {
  }

  // -------------------------------------------------------------------------
  // Back from dates to days

  /** The position of a date; January and February belong to the year that began the March before. */
  function PositionOfDate(d: Date): Position {
    var year := CivilYearOf(d);
    var monthPrime := if d.month <= 2 then d.month + 9 else d.month - 3;
    Position(year / 400, year % 400, (153 * monthPrime + 2) / 5 + d.day - 1)
  }

  function DaysFromCivil(d: Date): int {
    DaysAt(PositionOfDate(d))
  }

  /** The year of a date, counted by the March it begins in. */
  function CivilYearOf(d: Date): int {
    if d.month <= 2 then d.year - 1 else d.year
  }

  lemma CivilInYearIsOnto(d: Date)
    requires IsDate(d)
    ensures 0 <= PositionOfDate(d).day < (if IsLeap(CivilYearOf(d) + 1) then 366 else 365)
    ensures CivilInYear(CivilYearOf(d), PositionOfDate(d).day) == d
  {
  }

  lemma PositionOfDateIsExact(d: Date)
    requires IsDate(d)
    ensures IsPosition(PositionOfDate(d)) && DateAt(PositionOfDate(d)) == d
  {
    var p := PositionOfDate(d);
    assert CivilYear(p) == CivilYearOf(d);
    CivilInYearIsOnto(d);
    CivilYearLength(p);
  }

  /** Every date of the calendar is the date of some day, which `DaysFromCivil` names. */
  lemma EveryDateIsReached(d: Date)
    requires IsDate(d)
    ensures CivilFromDays(DaysFromCivil(d)) == d
  {
    PositionOfDateIsExact(d);
    PositionIsUnique(PositionOfDate(d));
    CivilIsDateAt(DaysFromCivil(d));
  }

  lemma DaysRoundTrip(days: int)
    ensures DaysFromCivil(CivilFromDays(days)) == days
  {
    var back := DaysFromCivil(CivilFromDays(days));
    CivilFollowsTheCalendar(days);
    EveryDateIsReached(CivilFromDays(days));
    if back < days {
      CivilIsOrdered(back, days);
    } else if days < back {
      CivilIsOrdered(days, back);
    }
  }

  // -------------------------------------------------------------------------
  // Timestamps

  /** The fields an ISO 8601 timestamp is printed from. */
  datatype Moment = Moment(date: Date, hour: int, minute: int, second: int)

  /** Floor division splits the timestamp into a day and the seconds of that day. */
  function Iso8601(timestamp: int): Moment {
    AtSecond(CivilFromDays(timestamp / 86400), timestamp % 86400)
  }

  function AtSecond(date: Date, secondsOfDay: int): Moment {
    Moment(date, secondsOfDay / 3600, secondsOfDay % 3600 / 60, secondsOfDay % 60)
  }

  predicate Earlier(a: Moment, b: Moment) {
    || Before(a.date, b.date)
    || (a.date == b.date
        && (a.hour < b.hour
            || (a.hour == b.hour
                && (a.minute < b.minute || (a.minute == b.minute && a.second < b.second)))))
  }

  lemma ClockFields(date: Date, secondsOfDay: int)
    requires 0 <= secondsOfDay < 86400
    ensures var m := AtSecond(date, secondsOfDay);
            && 0 <= m.hour < 24 && 0 <= m.minute < 60 && 0 <= m.second < 60
            && secondsOfDay == m.hour * 3600 + m.minute * 60 + m.second
  {
    assert secondsOfDay % 3600 % 60 == secondsOfDay % 60 by {
      assert secondsOfDay == secondsOfDay / 3600 * 60 * 60 + secondsOfDay % 3600;
    }
  }

  /** The fields are in range and determine the timestamp, before the epoch too. */
  lemma Iso8601RoundTrip(timestamp: int)
    ensures var m := Iso8601(timestamp);
            && IsDate(m.date) && 0 <= m.hour < 24 && 0 <= m.minute < 60 && 0 <= m.second < 60
            && timestamp == DaysFromCivil(m.date) * 86400 + m.hour * 3600 + m.minute * 60 + m.second
  {
    var day := timestamp / 86400;
    assert IsDate(CivilFromDays(day)) by { CivilFollowsTheCalendar(day); }
    assert DaysFromCivil(CivilFromDays(day)) == day by { DaysRoundTrip(day); }
    ClockFields(CivilFromDays(day), timestamp % 86400);
  }

  lemma Iso8601IsOrdered(a: int, b: int)
    requires a < b
    ensures Earlier(Iso8601(a), Iso8601(b))
  {
    ClockFields(CivilFromDays(a / 86400), a % 86400);
    ClockFields(CivilFromDays(b / 86400), b % 86400);
    if a / 86400 < b / 86400 {
      CivilIsOrdered(a / 86400, b / 86400);
    } else {
      assert a / 86400 == b / 86400 && a % 86400 < b % 86400;
    }
  }
}
