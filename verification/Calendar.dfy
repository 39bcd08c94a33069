/** From seconds since the Epoch to calendar and clock fields (services/tls/src/lib.rs),
    proved against a calendar that only knows how to advance by one day and
    against the POSIX formula for seconds since the Epoch. */
module Calendar {
  import opened Machine

  // The fields of C's `struct tm` that the conversion sets.
  datatype Tm = Tm(
    sec: int, min: int, hour: int, mday: int, mon: int,
    year: int, wday: int, yday: int, isdst: int)

  // ---------------------------------------------------------------- the reference calendar

  // One day of the proleptic Gregorian calendar; month and day count from 1, yday and wday from 0.
  datatype Date = Date(year: int, month: int, day: int, yday: int, wday: int)

  predicate IsLeap(year: int) {
    year % 4 == 0 && (year % 100 != 0 || year % 400 == 0)
  }

  function DaysInMonth(year: int, month: int): int {
    if month == 2 then if IsLeap(year) then 29 else 28
    else if month == 4 || month == 6 || month == 9 || month == 11 then 30
    else 31
  }

  function NextDay(d: Date): Date {
    var wday := if d.wday == 6 then 0 else d.wday + 1;
    if d.day < DaysInMonth(d.year, d.month) then Date(d.year, d.month, d.day + 1, d.yday + 1, wday)
    else if d.month < 12 then Date(d.year, d.month + 1, 1, d.yday + 1, wday)
    else Date(d.year + 1, 1, 1, 0, wday)
  }

  // Thursday, 1 January 1970.
  const EPOCH_DAY := Date(1970, 1, 1, 0, 4)

  // The calendar `n` midnights after the Epoch.
  function DayByDay(n: nat): Date {
    if n == 0 then EPOCH_DAY else NextDay(DayByDay(n - 1))
  }

  predicate ValidDate(d: Date) {
    && 1 <= d.month <= 12
    && 1 <= d.day <= DaysInMonth(d.year, d.month)
    && 0 <= d.wday <= 6
    && d.yday == DaysBeforeMonth(d.year, d.month) + d.day - 1
  }

  // Days of `year` that precede the first of `month`, summed month by month.
  function DaysBeforeMonth(year: int, month: int): int
    decreases month
  {
    if month <= 1 then 0 else DaysBeforeMonth(year, month - 1) + DaysInMonth(year, month - 1)
  }

  // "Seconds Since the Epoch", section 4.16 of POSIX.1-2017 (Base Definitions).
  function PosixSeconds(t: Tm): int {
    t.sec + t.min * 60 + t.hour * 3600 + t.yday * 86400
    + (t.year - 70) * 31536000 + ((t.year - 69) / 4) * 86400
    - ((t.year - 1) / 100) * 86400 + ((t.year + 299) / 400) * 86400
  }

  // The first second of the year 10000.
  const YEAR_10000: nat := 253402300800

  // ---------------------------------------------------------------- the modelled conversion

  const CUMULATIVE: seq<int> := [0, 31, 59, 90, 120, 151, 181, 212, 243, 273, 304, 334]

  function YearOfEra(doe: int): int {
    (doe - doe / 1460 + doe / 36524 - doe / 146096) / 365
  }

  // The day as a year that starts in March and a day of that year, both from 0.
  function MarchDay(days: nat): (int, int) {
    var z := days + 719468;
    var era := z / 146097;
    var doe := z % 146097;
    var yoe := YearOfEra(doe);
    (yoe + era * 400, doe - (365 * yoe + yoe / 4 - yoe / 100))
  }

  // Year, month and day of a March-based day.
  function FromMarch(marchYear: int, doy: int): (int, int, int) {
    var mp := (5 * doy + 2) / 153;
    var day := doy - (153 * mp + 2) / 5 + 1;
    var month := if mp < 10 then mp + 3 else mp - 9;
    (marchYear + (if month <= 2 then 1 else 0), month, day)
  }

  // The year, month and day part of `epoch_to_tm`.
  function CivilFromDays(days: nat): (int, int, int) {
    var (marchYear, doy) := MarchDay(days);
    FromMarch(marchYear, doy)
  }

  function EpochToTm(epoch: nat): Option<Tm>
    requires epoch < U64_RANGE
  {
    var days := epoch / 86400;
    var secs := epoch % 86400;
    CivilInRange(days);
    var (year, month, day) := CivilFromDays(days);
    if !(1970 <= year <= 9999) then None
    else
      var yday := CUMULATIVE[month - 1] + day - 1 + (if IsLeap(year) && month > 2 then 1 else 0);
      Some(Tm(secs % 60, secs / 60 % 60, secs / 3600, day, month - 1, year - 1900,
              (days + 4) % 7, yday, 0))
  }

  // ---------------------------------------------------------------- inside one 400-year era

  // Days of the era before its March-based year `y`.
  function YearStart(y: int): int {
    365 * y + y / 4 - y / 100
  }

  // A day of the era is a century, a four-year group and a day of that group;
  // the last day of the fourth century and of a leap group belong to the piece before them.
  lemma SplitEra(doe: int) returns (c: int, q: int, s: int)
    requires 0 <= doe < 146097
    ensures 0 <= c <= 3 && 0 <= q <= 24 && 0 <= s <= 1460
    ensures doe == 36524 * c + 1461 * q + s
    ensures q == 24 && s == 1460 ==> c == 3
  {
    c := if doe == 146096 then 3 else doe / 36524;
    var r := doe - 36524 * c;
    q := r / 1461;
    s := r % 1461;
  }

  // The year estimate divides by 365 once the leap days are taken out, and finds the group's year.
  lemma YearOfSplit(doe: int, c: int, q: int, s: int)
    requires 0 <= c <= 3 && 0 <= q <= 24 && 0 <= s <= 1460
    requires doe == 36524 * c + 1461 * q + s
    requires q == 24 && s == 1460 ==> c == 3
    ensures YearOfEra(doe) == 100 * c + 4 * q + (if s == 1460 then 3 else s / 365)
  {
    var e := if doe == 146096 then 1 else 0;
    assert doe / 146096 == e;
    assert doe / 36524 == c + e;
    var late := if 24 * c + q + s >= 1460 then 1 else 0;
    assert doe / 1460 == 25 * c + q + late;
    assert doe - doe / 1460 + doe / 36524 - doe / 146096 == 365 * (100 * c + 4 * q) + (s - late);
  }

  // Every day of the era lies in the March-based year the closed form names.
  lemma YearOfEraIsExact(doe: int)
    requires 0 <= doe < 146097
    ensures 0 <= YearOfEra(doe) <= 399
    ensures 0 <= doe - YearStart(YearOfEra(doe)) <= (if IsLeap(YearOfEra(doe) + 1) then 365 else 364)
  {
    var c, q, s := SplitEra(doe);
    YearOfSplit(doe, c, q, s);
    var a := if s == 1460 then 3 else s / 365;
    var y := 100 * c + 4 * q + a;
    hide *;
    SplitYear(c, q, a);
    assert YearOfEra(doe) == y;
    YearWindow(doe, c, q, s, a);
  }

  // The century and four-year group of a March-based year, and whether its February is long.
  lemma SplitYear(c: int, q: int, a: int)
    requires 0 <= c <= 3 && 0 <= q <= 24 && 0 <= a <= 3
    ensures var y := 100 * c + 4 * q + a;
      && YearStart(y) == 36524 * c + 1461 * q + 365 * a && 0 <= y <= 399
      && (IsLeap(y + 1) <==> a == 3 && (q == 24 ==> c == 3))
  {
    var y := 100 * c + 4 * q + a;
    DivModUnique(y, 4, 25 * c + q, a);
    DivModUnique(y, 100, c, 4 * q + a);
    DivModUnique(y + 1, 4, if a == 3 then 25 * c + q + 1 else 25 * c + q, if a == 3 then 0 else a + 1);
    var last := q == 24 && a == 3;
    DivModUnique(y + 1, 100, if last then c + 1 else c, if last then 0 else 4 * q + a + 1);
    var whole := last && c == 3;
    DivModUnique(y + 1, 400, if whole then 1 else 0, if whole then 0 else y + 1);
  }

  lemma YearWindow(doe: int, c: int, q: int, s: int, a: int)
    requires doe == 36524 * c + 1461 * q + s && 0 <= s <= 1460
    requires a == (if s == 1460 then 3 else s / 365)
    requires q == 24 && s == 1460 ==> c == 3
    ensures 0 <= doe - (36524 * c + 1461 * q + 365 * a)
                 <= (if a == 3 && (q == 24 ==> c == 3) then 365 else 364)
  {
  }

  // ---------------------------------------------------------------- days and dates

  // Leap years up to and including `year`.
  function LeapsThrough(year: int): int {
    year / 4 - year / 100 + year / 400
  }

  // Days from the Epoch to 1 January of `year`.
  function DaysBeforeYear(year: int): int {
    365 * (year - 1970) + LeapsThrough(year - 1) - 477
  }

  function YearLength(year: int): int {
    if IsLeap(year) then 366 else 365
  }

  function Ordinal(year: int, month: int, day: int): int {
    DaysBeforeYear(year) + DaysBeforeMonth(year, month) + day - 1
  }

  predicate ValidCivil(year: int, month: int, day: int) {
    1 <= month <= 12 && 1 <= day <= DaysInMonth(year, month)
  }

  // The cumulative table is the running sum of the month lengths.
  lemma CumulativeTable(year: int, month: int)
    requires 1 <= month <= 12
    ensures DaysBeforeMonth(year, month) == CUMULATIVE[month - 1] + (if IsLeap(year) && month > 2 then 1 else 0)
    decreases month
  {
    if month == 1 {
    } else {
      CumulativeTable(year, month - 1);
    }
  }

  lemma LeapsStep(year: int)
    ensures LeapsThrough(year) == LeapsThrough(year - 1) + (if IsLeap(year) then 1 else 0)
  {
    DivStep(year, 4);
    DivStep(year, 100);
    DivStep(year, 400);
    if year % 100 == 0 {
      DivModUnique(year, 4, 25 * (year / 100), 0);
    }
    if year % 400 == 0 {
      DivModUnique(year, 100, 4 * (year / 400), 0);
    }
  }

  lemma NextYearStarts(year: int)
    ensures DaysBeforeYear(year + 1) == DaysBeforeYear(year) + YearLength(year)
  {
    hide LeapsThrough, IsLeap;
    LeapsStep(year);
  }

  lemma {:induction false} YearsAreOrdered(a: int, b: int)
    requires a <= b
    ensures DaysBeforeYear(a) + 365 * (b - a) <= DaysBeforeYear(b)
    decreases b - a
  {
    hide DaysBeforeYear, IsLeap;
    if a == b {
    } else {
      YearsAreOrdered(a, b - 1);
      NextYearStarts(b - 1);
    }
  }

  // The day counted from March, cut into months of 31, 30, 31, 30, 31 days, is a day of the civil year.
  lemma FromMarchIsExact(g: int, doy: int)
    requires 0 <= doy <= (if IsLeap(g + 1) then 365 else 364)
    ensures var (y, m, d) := FromMarch(g, doy);
      && ValidCivil(y, m, d)
      && y == (if doy >= 306 then g + 1 else g)
      && DaysBeforeMonth(y, m) + d - 1 == (if y == g then doy + 59 + (if IsLeap(g) then 1 else 0) else doy - 306)
  {
    hide IsLeap, DaysInMonth, DaysBeforeMonth;
    var mp := MarchMonth(doy);
    if mp < 10 {
      CumulativeTable(g, mp + 3);
      MonthLengths(g, mp);
    } else {
      CumulativeTable(g + 1, mp - 9);
      MonthLengths(g + 1, mp);
    }
  }

  // 153 days make five months: the month index splits the March-based year where its months start.
  lemma MarchMonth(doy: int) returns (mp: int)
    requires 0 <= doy <= 365
    ensures mp == (5 * doy + 2) / 153 && 0 <= mp <= 11
    ensures (153 * mp + 2) / 5 <= doy < (153 * (mp + 1) + 2) / 5
  {
    mp := (5 * doy + 2) / 153;
  }

  lemma MonthLengths(year: int, mp: int)
    requires 0 <= mp <= 11
    ensures mp < 10 ==>
      && CUMULATIVE[mp + 2] == (153 * mp + 2) / 5 + 59
      && DaysInMonth(year, mp + 3) == (153 * (mp + 1) + 2) / 5 - (153 * mp + 2) / 5
    ensures mp >= 10 ==> CUMULATIVE[mp - 10] == (153 * mp + 2) / 5 - 306
    ensures mp == 10 ==> DaysInMonth(year, 1) == 31 && (153 * 11 + 2) / 5 - (153 * 10 + 2) / 5 == 31
    ensures mp == 11 ==> DaysInMonth(year, 2) == (if IsLeap(year) then 29 else 28) && (153 * 11 + 2) / 5 == 337
  {
    hide IsLeap;
    assert mp == 0 || mp == 1 || mp == 2 || mp == 3 || mp == 4 || mp == 5
        || mp == 6 || mp == 7 || mp == 8 || mp == 9 || mp == 10 || mp == 11;
  }

  // Leap years repeat with the era.
  lemma EraLeaps(yoe: int, era: int)
    requires 0 <= yoe <= 399
    ensures LeapsThrough(yoe + era * 400) == yoe / 4 - yoe / 100 + 97 * era
    ensures IsLeap(yoe + era * 400 + 1) == IsLeap(yoe + 1)
  {
    var g := yoe + era * 400;
    DivModUnique(g, 4, yoe / 4 + 100 * era, yoe % 4);
    DivModUnique(g, 100, yoe / 100 + 4 * era, yoe % 100);
    DivModUnique(g, 400, era, yoe);
    DivModUnique(g + 1, 4, (yoe + 1) / 4 + 100 * era, (yoe + 1) % 4);
    DivModUnique(g + 1, 100, (yoe + 1) / 100 + 4 * era, (yoe + 1) % 100);
    DivModUnique(g + 1, 400, (yoe + 1) / 400 + era, (yoe + 1) % 400);
  }

  // The era arithmetic finds the March-based year that contains the day.
  lemma MarchDayIsExact(days: nat)
    ensures var (g, doy) := MarchDay(days);
      && 0 <= doy <= (if IsLeap(g + 1) then 365 else 364)
      && days == 365 * g + LeapsThrough(g) + doy - 719468
      && 1969 <= g && (g == 1969 ==> doy >= 306)
  {
    hide YearOfEra, IsLeap, LeapsThrough;
    var z := days + 719468;
    var era := z / 146097;
    var doe := z % 146097;
    YearOfEraIsExact(doe);
    var yoe := YearOfEra(doe);
    EraLeaps(yoe, era);
    assert era >= 4;
    if era == 4 {
      assert doe >= 135080;
      assert YearStart(369) == 134774;
      assert yoe >= 369;
    }
  }

  // The closed form inverts the count of days: its date is real and is `days` after the Epoch.
  lemma CivilIsOrdinal(days: nat)
    ensures var (y, m, d) := CivilFromDays(days);
      ValidCivil(y, m, d) && Ordinal(y, m, d) == days && 1970 <= y
  {
    hide MarchDay, FromMarch, LeapsThrough, IsLeap, DaysInMonth, DaysBeforeMonth;
    MarchDayIsExact(days);
    var (g, doy) := MarchDay(days);
    FromMarchIsExact(g, doy);
    LeapsStep(g);
  }

  lemma CivilInRange(days: nat)
    ensures var (y, m, d) := CivilFromDays(days); 1 <= m <= 12
  {
    CivilIsOrdinal(days);
  }

  lemma {:induction false} MonthsAreOrdered(y: int, m: int, m': int)
    requires 1 <= m < m'
    ensures DaysBeforeMonth(y, m) + DaysInMonth(y, m) <= DaysBeforeMonth(y, m')
    decreases m'
  {
    if m == m' - 1 {
    } else {
      MonthsAreOrdered(y, m, m' - 1);
    }
  }

  // A day of the year belongs to one month and day only.
  lemma DayOfYearIsInjective(y: int, m: int, d: int, m': int, d': int)
    requires ValidCivil(y, m, d) && ValidCivil(y, m', d')
    requires DaysBeforeMonth(y, m) + d == DaysBeforeMonth(y, m') + d'
    ensures m == m' && d == d'
  {
    hide DaysBeforeMonth, DaysInMonth;
    if m < m' {
      MonthsAreOrdered(y, m, m');
    } else if m' < m {
      MonthsAreOrdered(y, m', m);
    }
  }

  // A valid date lies within its year.
  lemma DayWithinYear(y: int, m: int, d: int)
    requires ValidCivil(y, m, d)
    ensures 0 <= DaysBeforeMonth(y, m) + d - 1 < YearLength(y)
  {
    hide DaysBeforeMonth, IsLeap;
    CumulativeTable(y, m);
    MonthLengths(y, if m > 2 then m - 3 else m + 9);
  }

  // A day number belongs to one year only.
  lemma YearIsInjective(y: int, k: int, y': int, k': int)
    requires 0 <= k < YearLength(y) && 0 <= k' < YearLength(y')
    requires DaysBeforeYear(y) + k == DaysBeforeYear(y') + k'
    ensures y == y'
  {
    hide DaysBeforeYear, IsLeap;
    NextYearStarts(y);
    NextYearStarts(y');
    if y < y' {
      YearsAreOrdered(y + 1, y');
      assert false;
    }
    if y' < y {
      YearsAreOrdered(y' + 1, y);
      assert false;
    }
  }

  // A day number belongs to one date only.
  lemma OrdinalIsInjective(y: int, m: int, d: int, y': int, m': int, d': int)
    requires ValidCivil(y, m, d) && ValidCivil(y', m', d') && Ordinal(y, m, d) == Ordinal(y', m', d')
    ensures y == y' && m == m' && d == d'
  {
    hide DaysBeforeMonth, DaysBeforeYear, YearLength;
    DayWithinYear(y, m, d);
    DayWithinYear(y', m', d');
    YearIsInjective(y, DaysBeforeMonth(y, m) + d - 1, y', DaysBeforeMonth(y', m') + d' - 1);
    DayOfYearIsInjective(y, m, d, m', d');
  }

  // ---------------------------------------------------------------- main results

  function DateOf(days: nat): Date {
    var (y, m, d) := CivilFromDays(days);
    Date(y, m, d, DaysBeforeMonth(y, m) + d - 1, (days + 4) % 7)
  }

  // Advancing a valid date advances its day number by one.
  lemma NextDayIsNextOrdinal(a: Date)
    requires ValidDate(a)
    ensures var n := NextDay(a);
      && ValidDate(n) && n.wday == (a.wday + 1) % 7
      && Ordinal(n.year, n.month, n.day) == Ordinal(a.year, a.month, a.day) + 1
  {
    var n := NextDay(a);
    hide DaysBeforeYear, IsLeap;
    NextYearStarts(a.year);
    CumulativeTable(a.year, a.month);
    if a.day < DaysInMonth(a.year, a.month) {
    } else if a.month < 12 {
      assert DaysBeforeMonth(a.year, a.month + 1) == DaysBeforeMonth(a.year, a.month) + DaysInMonth(a.year, a.month);
    } else {
      assert DaysBeforeMonth(n.year, 1) == 0;
    }
  }

  lemma DateOfIsValid(days: nat)
    ensures var a := DateOf(days);
      && ValidDate(a) && Ordinal(a.year, a.month, a.day) == days
      && a.wday == (days + 4) % 7 && DateOf(days + 1).wday == (a.wday + 1) % 7
  {
    hide CivilFromDays, DaysBeforeMonth, DaysBeforeYear, DaysInMonth;
    CivilIsOrdinal(days);
  }

  lemma SameDayNumberSameDate(a: Date, b: Date)
    requires ValidDate(a) && ValidDate(b) && a.wday == b.wday
    requires Ordinal(a.year, a.month, a.day) == Ordinal(b.year, b.month, b.day)
    ensures a == b
  {
    hide DaysInMonth, Ordinal, DaysBeforeMonth;
    OrdinalIsInjective(a.year, a.month, a.day, b.year, b.month, b.day);
  }

  // One more day is one step of the reference calendar.
  lemma ClosedFormSteps(days: nat)
    ensures DateOf(days + 1) == NextDay(DateOf(days))
  {
    hide *;
    DateOfIsValid(days);
    DateOfIsValid(days + 1);
    var a := DateOf(days);
    var b := DateOf(days + 1);
    var n := NextDay(a);
    NextDayIsNextOrdinal(a);
    SameDayNumberSameDate(b, n);
  }

  // The closed form is the calendar counted one midnight at a time from Thursday 1970-01-01.
  lemma {:induction false} ClosedFormRefinesDayByDay(days: nat)
    ensures DateOf(days) == DayByDay(days)
    ensures ValidDate(DayByDay(days))
  {
    hide ValidDate, DateOf, NextDay;
    DateOfIsValid(days);
    if days == 0 {
      FirstDay();
      SameDayNumberSameDate(DateOf(0), EPOCH_DAY);
    } else {
      ClosedFormRefinesDayByDay(days - 1);
      ClosedFormSteps(days - 1);
    }
  }

  lemma FirstDay()
    ensures ValidDate(EPOCH_DAY) && Ordinal(1970, 1, 1) == 0
  {
  }

  // The conversion answers exactly for the dates before 10000-01-01.
  lemma AnswersBeforeYear10000(epoch: nat)
    requires epoch < U64_RANGE
    ensures EpochToTm(epoch).Some? <==> epoch < YEAR_10000
  {
    assert DaysBeforeYear(10000) == 2932897;
    hide CivilFromDays, DaysBeforeYear, DaysBeforeMonth, DaysInMonth, IsLeap;
    var days := epoch / 86400;
    CivilIsOrdinal(days);
    var (y, m, d) := CivilFromDays(days);
    DayWithinYear(y, m, d);
    if y <= 9999 {
      NextYearStarts(y);
      YearsAreOrdered(y + 1, 10000);
    } else {
      YearsAreOrdered(10000, y);
    }
  }

  // The fields name the calendar day and the second of that day, each in its own range.
  lemma FieldsFollowTheCalendar(epoch: nat)
    requires epoch < YEAR_10000
    ensures EpochToTm(epoch).Some?
    ensures
      var t := EpochToTm(epoch).value;
      && Date(t.year + 1900, t.mon + 1, t.mday, t.yday, t.wday) == DayByDay(epoch / 86400)
      && 0 <= t.sec < 60 && 0 <= t.min < 60 && 0 <= t.hour < 24 && t.isdst == 0
      && t.hour * 3600 + t.min * 60 + t.sec == epoch % 86400
  {
    hide CivilFromDays, DaysBeforeMonth, DaysInMonth, IsLeap, DayByDay;
    AnswersBeforeYear10000(epoch);
    ClosedFormRefinesDayByDay(epoch / 86400);
    CivilIsOrdinal(epoch / 86400);
    var (y, m, d) := CivilFromDays(epoch / 86400);
    CumulativeTable(y, m);
    ClockFields(epoch % 86400);
    hide ValidDate, ValidCivil, Ordinal;
  }

  lemma ClockFields(secs: int)
    requires 0 <= secs < 86400
    ensures secs / 3600 * 3600 + secs / 60 % 60 * 60 + secs % 60 == secs
    ensures 0 <= secs / 3600 < 24
  {
  }

  // The POSIX formula counts the days before the year from 1900 on.
  lemma PosixCountsDays(t: Tm)
    ensures PosixSeconds(t)
         == t.hour * 3600 + t.min * 60 + t.sec + 86400 * (t.yday + DaysBeforeYear(t.year + 1900))
  {
    var y := t.year + 1899;
    assert (t.year - 69) / 4 == y / 4 - 492;
    assert (t.year - 1) / 100 == y / 100 - 19;
    assert (t.year + 299) / 400 == y / 400 - 4;
  }

  // The POSIX formula gives the input back.
  lemma PosixInvertsConversion(epoch: nat)
    requires epoch < YEAR_10000
    ensures EpochToTm(epoch).Some? && PosixSeconds(EpochToTm(epoch).value) == epoch
  {
    hide EpochToTm, CivilFromDays, DaysBeforeMonth, DaysBeforeYear, DaysInMonth, PosixSeconds, DayByDay, ValidDate;
    FieldsFollowTheCalendar(epoch);
    CivilIsOrdinal(epoch / 86400);
    ClosedFormRefinesDayByDay(epoch / 86400);
    PosixCountsDays(EpochToTm(epoch).value);
    assert epoch == epoch / 86400 * 86400 + epoch % 86400;
  }
}
