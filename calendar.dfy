/** Calendar arithmetic standing in for JavaScript's `Date`: instants are
    integer milliseconds since 1970-01-01T00:00:00Z, calendar days are
    counted from that day in the proleptic Gregorian calendar. */
module Calendar {

  /** `24 * 3600 * 1000`, the factor the plugin multiplies retention days by. */
  const MsPerDay: int := 24 * 3600 * 1000

  datatype Date = Date(year: int, month: int, day: int)

  predicate IsLeapYear(y: int) {
    y % 4 == 0 && (y % 100 != 0 || y % 400 == 0)
  }

  function DaysInMonth(y: int, m: int): int
    requires 1 <= m <= 12
  {
    if m == 2 then (if IsLeapYear(y) then 29 else 28)
    else if m == 4 || m == 6 || m == 9 || m == 11 then 30
    else 31
  }

  /** A real calendar date. */
  predicate ValidDate(d: Date) {
    1 <= d.month <= 12 && 1 <= d.day <= DaysInMonth(d.year, d.month)
  }

  /** Days from 1 March to the first day of the `marchMonth`-th month after
      it (0 for March, 11 for February). */
  function MonthStart(marchMonth: int): int {
    (153 * marchMonth + 2) / 5
  }

  /** Days from the start of a 400-year era (1 March of a year divisible by
      400) to 1 March of its `yearOfEra`-th year. */
  function DaysBeforeYear(yearOfEra: int): int {
    yearOfEra * 365 + yearOfEra / 4 - yearOfEra / 100
  }

  /** The day number of a date, counted from 1970-01-01. A day past the end of
      its month rolls over into the next month, as JavaScript's `Date` does
      with such a day. */
  function DaysFromCivil(d: Date): int {
    // Years start on 1 March here, so that the leap day ends the year.
    var y := if d.month <= 2 then d.year - 1 else d.year;
    var era := y / 400;
    var yearOfEra := y - era * 400;
    var marchMonth := if d.month > 2 then d.month - 3 else d.month + 9;
    era * 146097 + DaysBeforeYear(yearOfEra) + MonthStart(marchMonth) + d.day - 1 - 719468
  }

  /** The year of an era a day of that era falls in: the era is split into
      centuries (the last one a day longer), four-year groups and years. */
  function YearOfEra(dayOfEra: int): (yearOfEra: int)
    requires 0 <= dayOfEra < 146097
    ensures 0 <= yearOfEra < 400
    ensures 0 <= dayOfEra - DaysBeforeYear(yearOfEra) <= 365
  {
    var century := if dayOfEra / 36524 < 3 then dayOfEra / 36524 else 3;
    var dayOfCentury := dayOfEra - 36524 * century;
    var group := dayOfCentury / 1461;
    var dayOfGroup := dayOfCentury % 1461;
    var yearOfGroup := if dayOfGroup / 365 < 3 then dayOfGroup / 365 else 3;
    var yearOfEra := 100 * century + 4 * group + yearOfGroup;
    assert group <= 24;
    assert yearOfEra / 4 == 25 * century + group;
    assert yearOfEra / 100 == century;
    assert DaysBeforeYear(yearOfEra) == 36524 * century + 1461 * group + 365 * yearOfGroup;
    yearOfEra
  }

  /** Only a leap year (of the calendar year it ends in) reaches day 365. */
  lemma YearOfEraLeap(dayOfEra: int)
    requires 0 <= dayOfEra < 146097
    ensures dayOfEra - DaysBeforeYear(YearOfEra(dayOfEra)) == 365 ==> IsLeapYear(YearOfEra(dayOfEra) + 1)
  {
    var century := if dayOfEra / 36524 < 3 then dayOfEra / 36524 else 3;
    var dayOfCentury := dayOfEra - 36524 * century;
    var group := dayOfCentury / 1461;
    var dayOfGroup := dayOfCentury % 1461;
    var yearOfGroup := if dayOfGroup / 365 < 3 then dayOfGroup / 365 else 3;
    var yearOfEra := 100 * century + 4 * group + yearOfGroup;
    assert yearOfEra == YearOfEra(dayOfEra);
    assert group <= 24;
    assert yearOfEra / 4 == 25 * century + group;
    assert yearOfEra / 100 == century;
    assert DaysBeforeYear(yearOfEra) == 36524 * century + 1461 * group + 365 * yearOfGroup;
  }

  /** The month (counted from March) a day of a March-based year falls in. */
  function MarchMonthOf(dayOfYear: int): (marchMonth: int)
    requires 0 <= dayOfYear <= 365
    ensures 0 <= marchMonth <= 11
  {
    (5 * dayOfYear + 2) / 153
  }

  /** The day falls between the start of its month and the next. */
  lemma MarchMonthBracket(dayOfYear: int)
    requires 0 <= dayOfYear <= 365
    ensures MonthStart(MarchMonthOf(dayOfYear)) <= dayOfYear < MonthStart(MarchMonthOf(dayOfYear) + 1)
  {
  }

  /** The calendar date of a date given as a year starting on 1 March, a
      month counted from March and a day of that month. */
  function FromMarchDate(marchYear: int, marchMonth: int, day: int): (d: Date)
    requires 0 <= marchMonth <= 11
    ensures 1 <= d.month <= 12
  {
    if marchMonth < 10 then Date(marchYear, marchMonth + 3, day)
    else Date(marchYear + 1, marchMonth - 9, day)
  }

  /** Counting the days of a March-based date of a given era. */
  lemma FromMarchDateDays(era: int, yearOfEra: int, marchMonth: int, day: int)
    requires 0 <= yearOfEra < 400 && 0 <= marchMonth <= 11
    ensures DaysFromCivil(FromMarchDate(era * 400 + yearOfEra, marchMonth, day))
         == era * 146097 + DaysBeforeYear(yearOfEra) + MonthStart(marchMonth) + day - 1 - 719468
  {
    EraOfYear(era, yearOfEra);
  }

  /** The calendar date of the `dayOfEra`-th day of a 400-year era. */
  function CivilOfEraDay(era: int, dayOfEra: int): (d: Date)
    requires 0 <= dayOfEra < 146097
    ensures 1 <= d.month <= 12
  {
    var yearOfEra := YearOfEra(dayOfEra);
    var dayOfYear := dayOfEra - DaysBeforeYear(yearOfEra);
    var marchMonth := MarchMonthOf(dayOfYear);
    FromMarchDate(era * 400 + yearOfEra, marchMonth, dayOfYear - MonthStart(marchMonth) + 1)
  }

  /** The calendar date of a day number. */
  function CivilFromDays(z: int): (d: Date)
    ensures 1 <= d.month <= 12
  {
    var shifted := z + 719468;  // days since 0000-03-01
    CivilOfEraDay(shifted / 146097, shifted % 146097)
  }

  /** A March-based date is a real date when its day lies inside its month,
      and a 29 February only in a leap year. */
  lemma MarchDateValid(marchYear: int, marchMonth: int, day: int)
    requires 0 <= marchMonth <= 11 && 1 <= day
    requires MonthStart(marchMonth) + day - 1 < MonthStart(marchMonth + 1)
    requires marchMonth == 11 ==> day <= 28 || (day == 29 && IsLeapYear(marchYear + 1))
    ensures ValidDate(FromMarchDate(marchYear, marchMonth, day))
  {
  }

  /** Where a day of an era falls: inside its month, and on 29 February
      only when the calendar year that day belongs to is a leap year. */
  lemma DayOfEraFits(dayOfEra: int)
    requires 0 <= dayOfEra < 146097
    ensures var yearOfEra := YearOfEra(dayOfEra);
      var dayOfYear := dayOfEra - DaysBeforeYear(yearOfEra);
      var marchMonth := MarchMonthOf(dayOfYear);
      var day := dayOfYear - MonthStart(marchMonth) + 1;
      && 1 <= day
      && MonthStart(marchMonth) + day - 1 < MonthStart(marchMonth + 1)
      && (marchMonth == 11 ==> day <= 28 || (day == 29 && IsLeapYear(yearOfEra + 1)))
  {
    var yearOfEra := YearOfEra(dayOfEra);
    var dayOfYear := dayOfEra - DaysBeforeYear(yearOfEra);
    YearOfEraLeap(dayOfEra);
    MarchMonthBracket(dayOfYear);
  }

  lemma CivilOfEraDayValid(era: int, dayOfEra: int)
    requires 0 <= dayOfEra < 146097
    ensures ValidDate(CivilOfEraDay(era, dayOfEra))
  {
    var yearOfEra := YearOfEra(dayOfEra);
    var dayOfYear := dayOfEra - DaysBeforeYear(yearOfEra);
    var marchMonth := MarchMonthOf(dayOfYear);
    var day := dayOfYear - MonthStart(marchMonth) + 1;
    var marchYear := era * 400 + yearOfEra;
    assert CivilOfEraDay(era, dayOfEra) == FromMarchDate(marchYear, marchMonth, day);
    DayOfEraFits(dayOfEra);
    LeapYearPeriodic(era, yearOfEra + 1);
    assert marchYear + 1 == era * 400 + (yearOfEra + 1);
    MarchDateValid(marchYear, marchMonth, day);
  }

  /** Every day number names a real date: in particular a day 29 of
      February only in a leap year. */
  lemma CivilFromDaysValid(z: int)
    ensures ValidDate(CivilFromDays(z))
  {
    var shifted := z + 719468;
    CivilOfEraDayValid(shifted / 146097, shifted % 146097);
  }

  lemma LeapYearPeriodic(era: int, y: int)
    ensures IsLeapYear(era * 400 + y) == IsLeapYear(y)
  {
    FourShift(era * 100, y);
    CenturyShift(era * 4, y);
    EraShift(era, y);
  }

  lemma FourShift(k: int, y: int)
    ensures (4 * k + y) % 4 == y % 4
  {
    var q, r := y / 4, y % 4;
    assert 4 * k + y == 4 * (k + q) + r && 0 <= r < 4;
  }

  lemma CenturyShift(k: int, y: int)
    ensures (100 * k + y) % 100 == y % 100
  {
    var q, r := y / 100, y % 100;
    assert 100 * k + y == 100 * (k + q) + r && 0 <= r < 100;
  }

  lemma EraShift(k: int, y: int)
    ensures (400 * k + y) % 400 == y % 400
  {
    var q, r := y / 400, y % 400;
    assert 400 * k + y == 400 * (k + q) + r && 0 <= r < 400;
  }

  /** Day numbers and calendar dates correspond: the date of a day number
      counts back to that same day number. */
  lemma CivilOfEraDayDays(era: int, dayOfEra: int)
    requires 0 <= dayOfEra < 146097
    ensures DaysFromCivil(CivilOfEraDay(era, dayOfEra)) == era * 146097 + dayOfEra - 719468
  {
    var yearOfEra := YearOfEra(dayOfEra);
    var dayOfYear := dayOfEra - DaysBeforeYear(yearOfEra);
    var marchMonth := MarchMonthOf(dayOfYear);
    var day := dayOfYear - MonthStart(marchMonth) + 1;
    assert CivilOfEraDay(era, dayOfEra) == FromMarchDate(era * 400 + yearOfEra, marchMonth, day);
    FromMarchDateDays(era, yearOfEra, marchMonth, day);
  }

  lemma CivilFromDaysInverse(z: int)
    ensures DaysFromCivil(CivilFromDays(z)) == z
  {
    var shifted := z + 719468;
    assert shifted == shifted / 146097 * 146097 + shifted % 146097;
    CivilOfEraDayDays(shifted / 146097, shifted % 146097);
  }

  lemma EraOfYear(era: int, yearOfEra: int)
    requires 0 <= yearOfEra < 400
    ensures (era * 400 + yearOfEra) / 400 == era
  {
    var y := era * 400 + yearOfEra;
    assert y == 400 * (y / 400) + y % 400;
  }

  /** The UTC calendar date of an instant. */
  function UtcDateOf(ms: int): (d: Date)
    ensures ValidDate(d)
    ensures DaysFromCivil(d) * MsPerDay <= ms < DaysFromCivil(d) * MsPerDay + MsPerDay
  {
    CivilFromDaysValid(ms / MsPerDay);
    CivilFromDaysInverse(ms / MsPerDay);
    CivilFromDays(ms / MsPerDay)
  }

  /** The instant `new Date("YYYY/MM/DD")` denotes: local midnight of the
      date, on a host whose local time is `tzOffsetMs` ahead of UTC. */
  function LocalMidnightMs(d: Date, tzOffsetMs: int): int {
    DaysFromCivil(d) * MsPerDay - tzOffsetMs
  }
}
