/** The part of JavaScript's `Date` that the normaliser uses: the constructor
    `new Date(year, monthIndex, day, hours, minutes)` and the local-time getters
    `getFullYear`, `getMonth`, `getDate`, `getHours` and `getMinutes`.

    Times are counted in minutes, as ECMA-262 counts them in milliseconds (seconds and
    milliseconds are always zero here). Local time is taken to coincide with UTC:
    the time-zone offset and daylight-saving transitions are not modelled. */
module Calendar {

  const MinutesPerDay := 1440
  const MsPerMinute := 60_000
  /** TimeClip: a time value whose magnitude exceeds this many milliseconds is NaN. */
  const MaxTimeMs := 8_640_000_000_000_000

  predicate InLeapYear(y: int) {
    y % 4 == 0 && (y % 100 != 0 || y % 400 == 0)
  }

  function DaysInYear(y: int): (n: int)
    ensures n == 365 || n == 366
  {
    if InLeapYear(y) then 366 else 365
  }

  /** Length of month `m` (0 = January) of year `y`. */
  function DaysInMonth(y: int, m: int): (n: int)
    requires 0 <= m < 12
    ensures 28 <= n <= 31
    ensures n == 29 <==> m == 1 && InLeapYear(y)
  {
    if m == 1 then (if InLeapYear(y) then 29 else 28)
    else if m == 3 || m == 5 || m == 8 || m == 10 then 30
    else 31
  }

  /** ECMA-262 DayFromYear: the day number of 1 January of year `y`, counted from 1 January 1970. */
  function DayFromYear(y: int): int {
    365 * (y - 1970) + (y - 1969) / 4 - (y - 1901) / 100 + (y - 1601) / 400
  }

  /** Days of year `y` before the first of month `m`, as ECMA-262 MonthFromTime tabulates them. */
  function DaysBeforeMonth(y: int, m: int): (n: int)
    requires 0 <= m < 12
    ensures 0 <= n <= 335
  {
    [0, 31, 59, 90, 120, 151, 181, 212, 243, 273, 304, 334][m]
    + (if m >= 2 && InLeapYear(y) then 1 else 0)
  }

  /** Day number of day `d` of month `m` of year `y`, for any `d` (0 and 32 included). */
  function DayNumber(y: int, m: int, d: int): int
    requires 0 <= m < 12
  {
    DayFromYear(y) + DaysBeforeMonth(y, m) + d - 1
  }

  /** ECMA-262 MakeDay: a month index outside 0..11 moves the year first. */
  function MakeDay(y: int, m: int, d: int): int {
    DayNumber(y + m / 12, m % 12, d)
  }

  /** ECMA-262 MakeDate(MakeDay(y, m, d), MakeTime(h, mi, 0, 0)), in minutes. */
  function TimeValue(y: int, m: int, d: int, h: int, mi: int): int {
    MakeDay(y, m, d) * MinutesPerDay + h * 60 + mi
  }

  /** The time value survives TimeClip. */
  predicate InTimeRange(t: int) {
    -MaxTimeMs <= t * MsPerMinute <= MaxTimeMs
  }

  /** ECMA-262 MakeFullYear: the Date constructor reads years 0..99 as 1900..1999. */
  function MakeFullYear(y: int): (r: int)
    ensures 0 <= y <= 99 ==> r == 1900 + y
    ensures (y < 0 || y > 99) ==> r == y
  {
    if 0 <= y <= 99 then 1900 + y else y
  }

  /** What the local-time getters of a Date report; `month` is `getMonth()` (0 = January). */
  datatype DateTime = DateTime(year: int, month: int, day: int, hour: int, minute: int)

  /** The getters of a Date always report fields in these ranges. */
  predicate Valid(dt: DateTime) {
    && 0 <= dt.month < 12
    && 1 <= dt.day <= DaysInMonth(dt.year, dt.month)
    && 0 <= dt.hour < 24
    && 0 <= dt.minute < 60
  }

  type LocalDateTime = dt: DateTime | Valid(dt) witness DateTime(1970, 0, 1, 0, 0)

  /** A JavaScript Date: either Invalid Date (time value NaN) or a date with local fields. */
  datatype JsDate = InvalidDate | LocalDate(dt: LocalDateTime)

  /** The time value (minutes since the epoch) of a date with the given fields. */
  function Minutes(dt: LocalDateTime): int {
    TimeValue(dt.year, dt.month, dt.day, dt.hour, dt.minute)
  }

  /** One year holds DaysInYear(y) days: the leap-year corrections of DayFromYear step by one exactly in leap years. */
  lemma YearLength(y: int)
    ensures DayFromYear(y + 1) == DayFromYear(y) + DaysInYear(y)
  {
    FourYearStep(y);
    CenturyStep(y);
    FourCenturyStep(y);
    DivisorsNest(y);
    var four := if y % 4 == 0 then 1 else 0;
    var century := if y % 100 == 0 then 1 else 0;
    var fourCenturies := if y % 400 == 0 then 1 else 0;
    assert DayFromYear(y + 1) - DayFromYear(y) == 365 + four - century + fourCenturies;
  }

  /** A multiple of 400 is a multiple of 100, and a multiple of 100 a multiple of 4. */
  lemma DivisorsNest(y: int)
    ensures y % 400 == 0 ==> y % 100 == 0
    ensures y % 100 == 0 ==> y % 4 == 0
  {
    var q, r := y / 100, y % 100;
    assert y == 100 * q + r;
    if r == 0 {
      assert y == 4 * (25 * q);
    }
    if y % 400 == 0 {
      var p := y / 400;
      assert y == 100 * (4 * p);
    }
  }

  lemma FourYearStep(y: int)
    ensures (y - 1968) / 4 - (y - 1969) / 4 == if y % 4 == 0 then 1 else 0
  {
    var q, r := y / 4, y % 4;
    if r == 0 {
      assert y - 1969 == 4 * (q - 493) + 3 && y - 1968 == 4 * (q - 492);
    } else {
      assert y - 1969 == 4 * (q - 493) + r - 1 + 4 && y - 1968 == 4 * (q - 492) + r;
    }
  }

  lemma CenturyStep(y: int)
    ensures (y - 1900) / 100 - (y - 1901) / 100 == if y % 100 == 0 then 1 else 0
  {
    var q, r := y / 100, y % 100;
    if r == 0 {
      assert y - 1901 == 100 * (q - 20) + 99 && y - 1900 == 100 * (q - 19);
    } else {
      assert y - 1901 == 100 * (q - 19) + r - 1 && y - 1900 == 100 * (q - 19) + r;
    }
  }

  lemma FourCenturyStep(y: int)
    ensures (y - 1600) / 400 - (y - 1601) / 400 == if y % 400 == 0 then 1 else 0
  {
    var q, r := y / 400, y % 400;
    if r == 0 {
      assert y - 1601 == 400 * (q - 5) + 399 && y - 1600 == 400 * (q - 4);
    } else {
      assert y - 1601 == 400 * (q - 4) + r - 1 && y - 1600 == 400 * (q - 4) + r;
    }
  }

  /** The months of a year follow each other without gap, and December ends the year. */
  lemma MonthLength(y: int, m: int)
    requires 0 <= m < 12
    ensures m < 11 ==> DaysBeforeMonth(y, m + 1) == DaysBeforeMonth(y, m) + DaysInMonth(y, m)
    ensures m == 11 ==> DaysBeforeMonth(y, m) + DaysInMonth(y, m) == DaysInYear(y)
  {
  }

  /** The day after the last day of a month is day 1 of the next month. */
  lemma NextMonthStart(y: int, m: int)
    requires 0 <= m < 12
    ensures m < 11 ==> DayNumber(y, m + 1, 1) == DayNumber(y, m, 1) + DaysInMonth(y, m)
    ensures m == 11 ==> DayNumber(y + 1, 0, 1) == DayNumber(y, m, 1) + DaysInMonth(y, m)
  {
    MonthLength(y, m);
    if m == 11 {
      YearLength(y);
    }
  }

  /** Rolls an out-of-range day of month into the previous or following months,
      as the getters do: day 0 is the last day of the previous month, day 32 of
      January is 1 February. */
  function RollDays(y: int, m: int, d: int): (r: (int, int, int))
    requires 0 <= m < 12
    ensures 0 <= r.1 < 12 && 1 <= r.2 <= DaysInMonth(r.0, r.1)
    ensures DayNumber(r.0, r.1, r.2) == DayNumber(y, m, d)
    decreases if d < 1 then 1 - d else 0, d
  {
    if d < 1 && m == 0 then
      NextMonthStart(y - 1, 11);
      RollDays(y - 1, 11, d + DaysInMonth(y - 1, 11))
    else if d < 1 then
      NextMonthStart(y, m - 1);
      RollDays(y, m - 1, d + DaysInMonth(y, m - 1))
    else if d > DaysInMonth(y, m) && m == 11 then
      NextMonthStart(y, 11);
      RollDays(y + 1, 0, d - DaysInMonth(y, 11))
    else if d > DaysInMonth(y, m) then
      NextMonthStart(y, m);
      RollDays(y, m + 1, d - DaysInMonth(y, m))
    else
      (y, m, d)
  }

  /** The local fields of the time value TimeValue(y, m, d, h, mi): minutes carry into
      hours, hours into days, month indexes into years, days into months. */
  function Fields(y: int, m: int, d: int, h: int, mi: int): (r: LocalDateTime)
    ensures Minutes(r) == TimeValue(y, m, d, h, mi)
  {
    var minute := mi % 60;
    var h1 := h + mi / 60;
    var hour := h1 % 24;
    var d1 := d + h1 / 24;
    var (y2, m2, d2) := RollDays(y + m / 12, m % 12, d1);
    ClockCarry(h, mi);
    DayShift(MakeDay(y, m, d), h1 / 24, h * 60 + mi);
    MakeDayInYear(y2, m2, d2);
    assert DayNumber(y + m / 12, m % 12, d1) == MakeDay(y, m, d) + h1 / 24;
    DateTime(y2, m2, d2, hour, minute)
  }

  /** For a month index in 0..11, MakeDay moves no year. */
  lemma MakeDayInYear(y: int, m: int, d: int)
    requires 0 <= m < 12
    ensures MakeDay(y, m, d) == DayNumber(y, m, d)
  {
    assert m / 12 == 0 && m % 12 == m;
  }

  /** Moving whole days from the clock into the day number keeps the time value. */
  lemma DayShift(day: int, carried: int, clock: int)
    ensures (day + carried) * MinutesPerDay + (clock - carried * MinutesPerDay) == day * MinutesPerDay + clock
  {
  }

  /** Carrying minutes into hours and hours into days keeps the number of minutes. */
  lemma ClockCarry(h: int, mi: int)
    ensures var h1 := h + mi / 60;
            h * 60 + mi == (h1 / 24) * MinutesPerDay + (h1 % 24) * 60 + mi % 60
  {
    var h1 := h + mi / 60;
    assert mi == 60 * (mi / 60) + mi % 60;
    assert h1 == 24 * (h1 / 24) + h1 % 24;
  }

  /** `new Date(y, m, d, h, mi)`: Invalid Date when TimeClip fails, otherwise the Date
      whose time value is MakeDate of the (year-adjusted) arguments. */
  function NewDate(y: int, m: int, d: int, h: int, mi: int): (r: JsDate)
    ensures r.LocalDate? <==> InTimeRange(TimeValue(MakeFullYear(y), m, d, h, mi))
    ensures r.LocalDate? ==> Minutes(r.dt) == TimeValue(MakeFullYear(y), m, d, h, mi)
  {
    var year := MakeFullYear(y);
    if InTimeRange(TimeValue(year, m, d, h, mi)) then LocalDate(Fields(year, m, d, h, mi))
    else InvalidDate
  }

  /** DayFromYear never decreases. */
  lemma {:induction false} DayFromYearMonotone(a: int, b: int)
    requires a <= b
    ensures DayFromYear(a) <= DayFromYear(b)
    decreases b - a
  {
    if a < b {
      YearLength(b - 1);
      DayFromYearMonotone(a, b - 1);
    }
  }

  /** Within a valid date, the day number lies inside its month and its year. */
  lemma DayNumberBounds(dt: LocalDateTime)
    ensures DayFromYear(dt.year) <= DayNumber(dt.year, dt.month, dt.day) < DayFromYear(dt.year + 1)
  {
    YearLength(dt.year);
    MonthLength(dt.year, dt.month);
    if dt.month < 11 {
      MonthsAscend(dt.year, dt.month + 1, 11);
      MonthLength(dt.year, 11);
    }
  }

  /** Later months start later: month m1 ends no later than month m2 starts. */
  lemma MonthsAscend(y: int, m1: int, m2: int)
    requires 0 <= m1 <= m2 < 12
    ensures DaysBeforeMonth(y, m1) <= DaysBeforeMonth(y, m2)
  {
  }

  /** Valid dates on the same day lie in the same year. */
  lemma SameDayNumberSameYear(a: LocalDateTime, b: LocalDateTime)
    requires DayNumber(a.year, a.month, a.day) == DayNumber(b.year, b.month, b.day)
    ensures a.year == b.year
  {
    DayNumberBounds(a);
    DayNumberBounds(b);
    if a.year < b.year {
      DayFromYearMonotone(a.year + 1, b.year);
    } else if b.year < a.year {
      DayFromYearMonotone(b.year + 1, a.year);
    }
  }

  /** Distinct valid dates fall on distinct days. */
  lemma {:induction false} DayNumberUnique(a: LocalDateTime, b: LocalDateTime)
    requires DayNumber(a.year, a.month, a.day) == DayNumber(b.year, b.month, b.day)
    ensures a.year == b.year && a.month == b.month && a.day == b.day
  {
    SameDayNumberSameYear(a, b);
    if a.month < b.month {
      MonthLength(a.year, a.month);
      MonthsAscend(a.year, a.month + 1, b.month);
    } else if b.month < a.month {
      MonthLength(b.year, b.month);
      MonthsAscend(b.year, b.month + 1, a.month);
    }
  }

  /** The time value of a valid date splits into its day number and its time of day. */
  lemma MinutesOfValid(dt: LocalDateTime)
    ensures Minutes(dt) == DayNumber(dt.year, dt.month, dt.day) * MinutesPerDay + (dt.hour * 60 + dt.minute)
    ensures 0 <= dt.hour * 60 + dt.minute < MinutesPerDay
  {
    assert dt.month / 12 == 0 && dt.month % 12 == dt.month;
  }

  lemma SplitDay(da: int, ta: int, db: int, tb: int)
    requires 0 <= ta < MinutesPerDay && 0 <= tb < MinutesPerDay
    requires da * MinutesPerDay + ta == db * MinutesPerDay + tb
    ensures da == db && ta == tb
  {
  }

  /** Distinct valid dates have distinct time values: the getters' fields are
      determined by the time value alone. */
  lemma {:induction false} DecompositionUnique(a: LocalDateTime, b: LocalDateTime)
    requires Minutes(a) == Minutes(b)
    ensures a == b
  {
    MinutesOfValid(a);
    MinutesOfValid(b);
    SplitDay(DayNumber(a.year, a.month, a.day), a.hour * 60 + a.minute,
             DayNumber(b.year, b.month, b.day), b.hour * 60 + b.minute);
    DayNumberUnique(a, b);
    assert a.hour == b.hour && a.minute == b.minute;
  }

  /** When the constructor's arguments are already in range, the getters give them back
      unchanged (with the year adjusted by MakeFullYear). */
  lemma NewDateInRange(y: int, m: int, d: int, h: int, mi: int)
    requires Valid(DateTime(MakeFullYear(y), m, d, h, mi))
    requires InTimeRange(TimeValue(MakeFullYear(y), m, d, h, mi))
    ensures NewDate(y, m, d, h, mi) == LocalDate(DateTime(MakeFullYear(y), m, d, h, mi))
  {
    var r := NewDate(y, m, d, h, mi);
    DecompositionUnique(r.dt, DateTime(MakeFullYear(y), m, d, h, mi));
  }

  /** For the argument ranges the two text patterns can produce (years of at most four
      digits, month indexes -1..98, two-digit days, hours and minutes), the constructor
      never yields Invalid Date: out-of-range fields roll over instead. */
  lemma NewDateNeverInvalid(y: int, m: int, d: int, h: int, mi: int)
    requires 0 <= y <= 9999 && -1 <= m <= 98
    requires 0 <= d <= 99 && 0 <= h <= 99 && 0 <= mi <= 99
    ensures NewDate(y, m, d, h, mi).LocalDate?
  {
    var year := MakeFullYear(y);
    var ym := year + m / 12;
    assert 99 <= ym <= 10007;
    DayFromYearMonotone(99, ym);
    DayFromYearMonotone(ym, 10007);
    assert -1000000 <= DayFromYear(99) && DayFromYear(10007) <= 3000000;
  }
}
