/** Turning a count of days since 1970-01-01 into a calendar date. */
module CivilDates {
  import opened Wrappers

  const I64_MIN: int := -0x8000_0000_0000_0000
  const I64_MAX: int := 0x7FFF_FFFF_FFFF_FFFF

  datatype Date = Date(year: int, month: int, day: int)

  datatype DateError = Overflow | YearOutOfRange

  // ----- the proleptic Gregorian calendar

  predicate Leap(year: int) {
    year % 4 == 0 && (year % 100 != 0 || year % 400 == 0)
  }

  function MonthLength(year: int, month: int): int
    requires 1 <= month <= 12
  {
    if month == 2 then if Leap(year) then 29 else 28
    else if month == 4 || month == 6 || month == 9 || month == 11 then 30
    else 31
  }

  predicate IsDate(d: Date) {
    1 <= d.month <= 12 && 1 <= d.day <= MonthLength(d.year, d.month)
  }

  function Tomorrow(d: Date): (next: Date)
    requires IsDate(d)
    ensures IsDate(next)
  {
    if d.day < MonthLength(d.year, d.month) then d.(day := d.day + 1)
    else if d.month < 12 then Date(d.year, d.month + 1, 1)
    else Date(d.year + 1, 1, 1)
  }

  predicate Earlier(d: Date, e: Date) {
    d.year < e.year || (d.year == e.year && (d.month < e.month || (d.month == e.month && d.day < e.day)))
  }

  lemma TomorrowIsLater(d: Date)
    requires IsDate(d)
    ensures Earlier(d, Tomorrow(d))
  {
  }

  // ----- the transform; Rust's division truncates, so the era is computed from a shifted numerator

  function Truncated(x: int, y: int): (q: int)
    requires y > 0
  {
    if x >= 0 then x / y else -((-x) / y)
  }

  function EraOf(shifted: int): (era: int)
    ensures era * 146_097 <= shifted < (era + 1) * 146_097
  {
    Truncated(if shifted >= 0 then shifted else shifted - 146_096, 146_097)
  }

  function YearOfEra(dayOfEra: int): (y: int)
    requires 0 <= dayOfEra < 146_097
  {
    (dayOfEra - dayOfEra / 1_460 + dayOfEra / 36_524 - dayOfEra / 146_096) / 365
  }

  /** Days before the n-th year of an era, whose years begin on the first of March. */
  function DaysBeforeYear(n: int): int {
    365 * n + n / 4 - n / 100 + n / 400
  }

  /** A day of an era as centuries, four-year cycles, years and days, each from the first of March. */
  ghost predicate Cycles(dayOfEra: int, c: int, q: int, s: int, r: int) {
    && 0 <= c <= 3 && 0 <= q <= 24 && 0 <= s <= 3 && 0 <= r <= 365
    && dayOfEra == 36_524 * c + 1_461 * q + 365 * s + r
    && (r == 365 ==> s == 3 && (q == 24 ==> c == 3))
  }

  lemma CyclesExist(dayOfEra: int) returns (c: int, q: int, s: int, r: int)
    requires 0 <= dayOfEra < 146_097
    ensures Cycles(dayOfEra, c, q, s, r)
  {
    c := if dayOfEra == 146_096 then 3 else dayOfEra / 36_524;
    var inCentury := dayOfEra - 36_524 * c;
    q := inCentury / 1_461;
    var inCycle := inCentury - 1_461 * q;
    s := if inCycle == 1_460 then 3 else inCycle / 365;
    r := inCycle - 365 * s;
  }

  /** The transform's correction terms cancel exactly the leap days passed so far. */
  lemma YearFromCycles(dayOfEra: int, c: int, q: int, s: int, r: int)
    requires 0 <= dayOfEra < 146_097 && Cycles(dayOfEra, c, q, s, r)
    ensures YearOfEra(dayOfEra) == 100 * c + 4 * q + s
  {
    assert dayOfEra / 36_524 - dayOfEra / 146_096 == c;
    var t := 24 * c + q + 365 * s + r;
    assert dayOfEra == 1_460 * (25 * c + q) + t;
    assert dayOfEra / 1_460 == 25 * c + q + (if t >= 1_460 then 1 else 0);
  }

  lemma YearStarts(c: int, q: int, s: int)
    requires 0 <= c <= 3 && 0 <= q <= 24 && 0 <= s <= 3
    ensures DaysBeforeYear(100 * c + 4 * q + s) == 36_524 * c + 1_461 * q + 365 * s
    ensures var n := 100 * c + 4 * q + s; n / 4 == 25 * c + q && n / 100 == c && n / 400 == 0
  {
    var n := 100 * c + 4 * q + s;
    assert n / 4 == 25 * c + q;
    assert n / 100 == c;
  }

  lemma YearLengths(n: int)
    ensures DaysBeforeYear(n + 1) == DaysBeforeYear(n) + if Leap(n + 1) then 366 else 365
  {
    DivisionStep(n + 1, 4);
    DivisionStep(n + 1, 100);
    DivisionStep(n + 1, 400);
  }

  lemma DivisionStep(x: int, k: int)
    requires k == 4 || k == 100 || k == 400
    ensures x / k == (x - 1) / k + if x % k == 0 then 1 else 0
  {
  }

  /** The year of the era is the one whose days contain the given day. */
  lemma YearOfEraExact(dayOfEra: int)
    requires 0 <= dayOfEra < 146_097
    ensures var n := YearOfEra(dayOfEra);
            0 <= n < 400 && DaysBeforeYear(n) <= dayOfEra < DaysBeforeYear(n + 1)
  {
    var c, q, s, r := CyclesExist(dayOfEra);
    YearFromCycles(dayOfEra, c, q, s, r);
    YearStarts(c, q, s);
    YearLengths(100 * c + 4 * q + s);
    if r == 365 {
      LastDayIsLeap(c, q);
    }
  }

  lemma LastDayIsLeap(c: int, q: int)
    requires 0 <= c <= 3 && 0 <= q <= 24 && (q == 24 ==> c == 3)
    ensures Leap(100 * c + 4 * q + 4)
  {
    if q < 24 {
      assert (100 * c + 4 * q + 4) % 100 == 4 * q + 4;
    }
  }

  // ----- months counted from March

  function MonthPiece(dayOfYear: int): int {
    (5 * dayOfYear + 2) / 153
  }

  function PieceStart(piece: int): int {
    (153 * piece + 2) / 5
  }

  function MonthOf(piece: int): int {
    piece + if piece < 10 then 3 else -9
  }

  lemma MonthPieceExact(dayOfYear: int)
    requires 0 <= dayOfYear <= 365
    ensures var piece := MonthPiece(dayOfYear);
            0 <= piece <= 11 && PieceStart(piece) <= dayOfYear < PieceStart(piece + 1)
  {
  }

  /** Up to January the pieces have the lengths of the months; February takes what is left of the year. */
  lemma PieceLength(piece: int, year: int)
    requires 0 <= piece <= 10
    ensures PieceStart(piece + 1) - PieceStart(piece) == MonthLength(year, MonthOf(piece))
  {
  }

  // ----- the date

  /** The date of a day of an era's year, counted from the first of March. */
  function DateAt(era: int, yearOfEra: int, dayOfYear: int): Date {
    var piece := MonthPiece(dayOfYear);
    var month := MonthOf(piece);
    Date(yearOfEra + era * 400 + (if month <= 2 then 1 else 0), month, dayOfYear - PieceStart(piece) + 1)
  }

  function CivilOf(days: int): Date {
    var shifted := days + 719_468;
    var era := EraOf(shifted);
    var dayOfEra := shifted - era * 146_097;
    var yearOfEra := YearOfEra(dayOfEra);
    DateAt(era, yearOfEra, dayOfEra - (365 * yearOfEra + yearOfEra / 4 - yearOfEra / 100))
  }

  function CivilDateFromUnixDays(days: int): Result<Date, DateError>
    requires I64_MIN <= days <= I64_MAX
  {
    if days + 719_468 > I64_MAX then Err(Overflow)
    else if 0 <= CivilOf(days).year <= 9_999 then Ok(CivilOf(days))
    else Err(YearOutOfRange)
  }

  lemma LeapInEra(year: int, era: int)
    ensures Leap(year + era * 400) == Leap(year)
  {
    RemainderIn4(year, 100 * era);
    RemainderIn100(year, 4 * era);
    RemainderIn400(year, era);
  }

  lemma RemainderIn4(x: int, k: int)
    ensures (x + 4 * k) % 4 == x % 4
  {
  }

  lemma RemainderIn100(x: int, k: int)
    ensures (x + 100 * k) % 100 == x % 100
  {
  }

  lemma RemainderIn400(x: int, k: int)
    ensures (x + 400 * k) % 400 == x % 400
  {
  }

  ghost predicate InYear(yearOfEra: int, dayOfYear: int) {
    0 <= dayOfYear < if Leap(yearOfEra + 1) then 366 else 365
  }

  lemma DateAtIsDate(era: int, yearOfEra: int, dayOfYear: int)
    requires InYear(yearOfEra, dayOfYear)
    ensures IsDate(DateAt(era, yearOfEra, dayOfYear))
  {
    hide Leap;
    MonthPieceExact(dayOfYear);
    LeapInEra(yearOfEra + 1, era);
    var piece := MonthPiece(dayOfYear);
    if piece <= 10 {
      PieceLength(piece, DateAt(era, yearOfEra, dayOfYear).year);
    } else {
      assert DateAt(era, yearOfEra, dayOfYear).year == (yearOfEra + 1) + era * 400;
    }
  }

  /** The place of a day in its era. */
  lemma Parts(days: int) returns (era: int, yearOfEra: int, dayOfYear: int)
    ensures 0 <= yearOfEra < 400 && InYear(yearOfEra, dayOfYear)
    ensures days + 719_468 == era * 146_097 + DaysBeforeYear(yearOfEra) + dayOfYear
    ensures CivilOf(days) == DateAt(era, yearOfEra, dayOfYear)
  {
    hide DateAt, Leap, YearOfEra, EraOf, DaysBeforeYear, InYear;
    era := EraOf(days + 719_468);
    var dayOfEra := days + 719_468 - era * 146_097;
    yearOfEra := YearOfEra(dayOfEra);
    dayOfYear := PlaceInYear(dayOfEra);
  }

  lemma PlaceInYear(dayOfEra: int) returns (dayOfYear: int)
    requires 0 <= dayOfEra < 146_097
    ensures var n := YearOfEra(dayOfEra);
            && 0 <= n < 400 && InYear(n, dayOfYear) && dayOfEra == DaysBeforeYear(n) + dayOfYear
            && dayOfYear == dayOfEra - (365 * n + n / 4 - n / 100)
  {
    hide YearOfEra, Leap;
    var n := YearOfEra(dayOfEra);
    YearOfEraExact(dayOfEra);
    YearLengths(n);
    assert n / 400 == 0;
    dayOfYear := dayOfEra - DaysBeforeYear(n);
  }

  /** Places in eras are unique. */
  lemma PartsUnique(era: int, n: int, r: int, other: int, m: int, t: int)
    requires 0 <= n < 400 && InYear(n, r) && 0 <= m < 400 && InYear(m, t)
    requires era * 146_097 + DaysBeforeYear(n) + r == other * 146_097 + DaysBeforeYear(m) + t
    ensures era == other && n == m && r == t
  {
    hide Leap;
    YearInEra(n, r);
    YearInEra(m, t);
    hide DaysBeforeYear;
    assert era == other;
    if n < m {
      YearsIncrease(n + 1, m);
      YearLengths(n);
    } else if m < n {
      YearsIncrease(m + 1, n);
      YearLengths(m);
    }
  }

  lemma YearInEra(n: int, r: int)
    requires 0 <= n < 400 && InYear(n, r)
    ensures 0 <= DaysBeforeYear(n) + r < 146_097
  {
    hide Leap;
    YearLengths(n);
    YearsIncrease(0, n);
    YearsIncrease(n + 1, 400);
  }

  lemma {:induction false} YearsIncrease(n: int, m: int)
    requires n <= m
    ensures DaysBeforeYear(n) <= DaysBeforeYear(m)
    decreases m - n
  {
    hide DaysBeforeYear, Leap;
    if n < m {
      YearsIncrease(n, m - 1);
      YearLengths(m - 1);
    }
  }

  // ----- the calendar theorems

  /** Every day has a valid date. */
  lemma CivilIsDate(days: int)
    ensures IsDate(CivilOf(days))
  {
    hide CivilOf, IsDate;
    var era, n, r := Parts(days);
    DateAtIsDate(era, n, r);
  }

  lemma NextInYear(era: int, n: int, r: int)
    requires InYear(n, r) && InYear(n, r + 1) && IsDate(DateAt(era, n, r))
    ensures DateAt(era, n, r + 1) == Tomorrow(DateAt(era, n, r))
  {
    hide Leap;
    MonthPieceExact(r);
    MonthPieceExact(r + 1);
    LeapInEra(n + 1, era);
    var piece := MonthPiece(r);
    if piece <= 10 {
      PieceLength(piece, DateAt(era, n, r).year);
    } else {
      assert DateAt(era, n, r).year == (n + 1) + era * 400;
    }
  }

  lemma NextYear(era: int, n: int, r: int)
    requires InYear(n, r) && !InYear(n, r + 1) && IsDate(DateAt(era, n, r))
    ensures DateAt(era, n + 1, 0) == Tomorrow(DateAt(era, n, r))
  {
    hide Leap;
    LeapInEra(n + 1, era);
    assert MonthPiece(r) == 11;
    assert DateAt(era, n, r).year == (n + 1) + era * 400;
  }

  /** The next day has the next date. */
  lemma NextDay(days: int)
    ensures IsDate(CivilOf(days)) && CivilOf(days + 1) == Tomorrow(CivilOf(days))
  {
    hide CivilOf, DateAt, IsDate, Leap, DaysBeforeYear, Tomorrow;
    CivilIsDate(days);
    var era, n, r := Parts(days);
    var other, m, t := Parts(days + 1);
    if InYear(n, r + 1) {
      PartsUnique(era, n, r + 1, other, m, t);
      NextInYear(era, n, r);
    } else {
      NextYear(era, n, r);
      YearLengths(n);
      FirstOfMarch();
      if n < 399 {
        PartsUnique(era, n + 1, 0, other, m, t);
      } else {
        PartsUnique(era + 1, 0, 0, other, m, t);
        EraTurns(era);
      }
    }
  }

  lemma FirstOfMarch()
    ensures forall n {:trigger InYear(n, 0)} :: InYear(n, 0)
    ensures DaysBeforeYear(400) == 146_097 && DaysBeforeYear(0) == 0
  {
  }

  lemma EraTurns(era: int)
    ensures DateAt(era, 400, 0) == DateAt(era + 1, 0, 0)
  {
  }

  /** The epoch is the first of January 1970. */
  lemma EpochDate()
    ensures CivilOf(0) == Date(1970, 1, 1)
  {
    assert EraOf(719_468) == 4;
    assert YearOfEra(135_080) == 369;
    assert DateAt(4, 369, 306) == Date(1970, 1, 1);
    hide EraOf, YearOfEra, DateAt;
  }

  lemma EarlierTransitive(d: Date, e: Date, f: Date)
    requires Earlier(d, e) && Earlier(e, f)
    ensures Earlier(d, f)
  {
  }

  /** Later days have later dates, so no two days share one. */
  lemma {:induction false} DatesIncrease(days: int, later: int)
    requires days < later
    ensures Earlier(CivilOf(days), CivilOf(later))
    decreases later - days
  {
    hide CivilOf, Earlier;
    NextDay(later - 1);
    TomorrowIsLater(CivilOf(later - 1));
    if days < later - 1 {
      DatesIncrease(days, later - 1);
      EarlierTransitive(CivilOf(days), CivilOf(later - 1), CivilOf(later));
    }
  }

  lemma FirstDate()
    ensures CivilOf(-719_528) == Date(0, 1, 1)
  {
    assert EraOf(-60) == -1;
    assert YearOfEra(146_037) == 399;
    hide EraOf, YearOfEra;
  }

  lemma LastDayOfEra()
    ensures EraOf(3_652_364) == 24 && YearOfEra(146_036) == 399
  {
  }

  lemma LastDate()
    ensures CivilOf(2_932_896) == Date(9_999, 12, 31)
  {
    LastDayOfEra();
    hide EraOf, YearOfEra;
  }

  /** A date is returned for exactly the days of the years 0 to 9999. */
  lemma SupportedRange(days: int)
    requires I64_MIN <= days <= I64_MAX
    ensures CivilDateFromUnixDays(days).Ok? <==> -719_528 <= days <= 2_932_896
  {
    hide CivilOf;
    FirstDate();
    LastDate();
    CivilIsDate(days);
    if days < -719_528 {
      DatesIncrease(days, -719_528);
    } else if -719_528 < days {
      DatesIncrease(-719_528, days);
    }
    if days < 2_932_896 {
      DatesIncrease(days, 2_932_896);
    } else if 2_932_896 < days {
      DatesIncrease(2_932_896, days);
    }
  }

  // ----- an independent count of days

  function LeapYearsBefore(year: int): int {
    (year - 1) / 4 - (year - 1) / 100 + (year - 1) / 400
  }

  function YearStart(year: int): int {
    365 * (year - 1970) + LeapYearsBefore(year) - LeapYearsBefore(1970)
  }

  function DaysBeforeMonth(year: int, month: int): int
    requires 1 <= month <= 12
    decreases month
  {
    if month == 1 then 0 else DaysBeforeMonth(year, month - 1) + MonthLength(year, month - 1)
  }

  /** Days since the epoch, counted year by year and month by month. */
  function DayNumber(d: Date): int
    requires IsDate(d)
  {
    YearStart(d.year) + DaysBeforeMonth(d.year, d.month) + d.day - 1
  }

  lemma YearStartStep(year: int)
    ensures YearStart(year + 1) == YearStart(year) + if Leap(year) then 366 else 365
  {
    DivisionStep(year, 4);
    DivisionStep(year, 100);
    DivisionStep(year, 400);
  }

  lemma DecemberEnds(year: int)
    ensures DaysBeforeMonth(year, 12) + 31 == if Leap(year) then 366 else 365
  {
    hide Leap;
    assert DaysBeforeMonth(year, 4) == (if Leap(year) then 29 else 28) + 62;
    assert DaysBeforeMonth(year, 8) == DaysBeforeMonth(year, 4) + 122;
    assert DaysBeforeMonth(year, 12) == DaysBeforeMonth(year, 8) + 122;
  }

  lemma TomorrowCounts(d: Date)
    requires IsDate(d)
    ensures DayNumber(Tomorrow(d)) == DayNumber(d) + 1
  {
    hide YearStart, Leap;
    if d.day == MonthLength(d.year, d.month) && d.month == 12 {
      YearStartStep(d.year);
      DecemberEnds(d.year);
    }
  }

  /** The transform and the day count are inverse: the date of day n is the date whose count is n. */
  lemma {:induction false} CountOfCivil(days: int)
    ensures IsDate(CivilOf(days)) && DayNumber(CivilOf(days)) == days
    decreases if days >= 0 then days else -days
  {
    hide CivilOf, DayNumber, Tomorrow, IsDate;
    if days == 0 {
      EpochDate();
      EpochCount();
    } else if days > 0 {
      CountOfCivil(days - 1);
      NextDay(days - 1);
      TomorrowCounts(CivilOf(days - 1));
    } else {
      CountOfCivil(days + 1);
      NextDay(days);
      TomorrowCounts(CivilOf(days));
    }
  }

  lemma EpochCount()
    ensures IsDate(Date(1970, 1, 1)) && DayNumber(Date(1970, 1, 1)) == 0
  {
  }

  lemma {:induction false} YearStartsIncrease(year: int, later: int)
    requires year <= later
    ensures YearStart(year) + 365 * (later - year) <= YearStart(later)
    decreases later - year
  {
    hide YearStart, Leap;
    if year < later {
      YearStartsIncrease(year, later - 1);
      YearStartStep(later - 1);
    }
  }

  lemma {:induction false} MonthStartsIncrease(year: int, month: int, later: int)
    requires 1 <= month < later <= 12
    ensures DaysBeforeMonth(year, month) + MonthLength(year, month) <= DaysBeforeMonth(year, later)
    decreases later
  {
    if month < later - 1 {
      MonthStartsIncrease(year, month, later - 1);
    }
  }

  lemma DayInYear(d: Date)
    requires IsDate(d)
    ensures 0 <= DayNumber(d) - YearStart(d.year) < if Leap(d.year) then 366 else 365
  {
    hide Leap, YearStart;
    if d.month < 12 {
      MonthStartsIncrease(d.year, d.month, 12);
    }
    if d.month > 1 {
      MonthStartsIncrease(d.year, 1, d.month);
    }
    DecemberEnds(d.year);
  }

  /** Later dates have larger counts. */
  lemma CountsIncrease(d: Date, e: Date)
    requires IsDate(d) && IsDate(e) && Earlier(d, e)
    ensures DayNumber(d) < DayNumber(e)
  {
    hide Leap, YearStart;
    if d.year < e.year {
      hide DayNumber;
      DayInYear(d);
      DayInYear(e);
      YearStartStep(d.year);
      YearStartsIncrease(d.year + 1, e.year);
    } else if d.month < e.month {
      MonthStartsIncrease(d.year, d.month, e.month);
    }
  }

  /** Every valid date is the date of its count. */
  lemma CivilOfCount(d: Date)
    requires IsDate(d)
    ensures CivilOf(DayNumber(d)) == d
  {
    hide CivilOf, DayNumber, IsDate;
    CountOfCivil(DayNumber(d));
    var e := CivilOf(DayNumber(d));
    if Earlier(d, e) {
      CountsIncrease(d, e);
    } else if Earlier(e, d) {
      CountsIncrease(e, d);
    }
  }
}
