// The proleptic Gregorian calendar behind DateTime: days are numbered from
// 0001-01-01, and a day number is turned back into a year by splitting it
// into 400-year, 100-year, 4-year and 1-year periods, as DateTime's date
// properties do.
module Calendar {
  import opened Wrappers

  const DaysPerYear: int := 365
  const DaysPer4Years: int := 1461
  const DaysPer100Years: int := 36524
  const DaysPer400Years: int := 146097

  /** Days from 0001-01-01 to 10000-01-01. */
  const DaysTo10000: int := 3_652_059

  /** Every fourth year, except the centuries not divisible by 400. */
  predicate LeapYear(year: int) {
    year % 4 == 0 && (year % 100 != 0 || year % 400 == 0)
  }

  function YearLength(year: int): int {
    if LeapYear(year) then 366 else 365
  }

  /** Days before each month, and the year's length at index 12. */
  const DaysToMonth365: seq<int> := [0, 31, 59, 90, 120, 151, 181, 212, 243, 273, 304, 334, 365]
  const DaysToMonth366: seq<int> := [0, 31, 60, 91, 121, 152, 182, 213, 244, 274, 305, 335, 366]

  /** One of the two month tables. */
  predicate MonthTable(table: seq<int>) {
    table == DaysToMonth365 || table == DaysToMonth366
  }

  function DaysToMonth(year: int): (table: seq<int>)
    ensures MonthTable(table) && table[12] == YearLength(year)
  {
    if LeapYear(year) then DaysToMonth366 else DaysToMonth365
  }

  function MonthLength(year: int, month: int): int
    requires 1 <= month <= 12
  {
    DaysToMonth(year)[month] - DaysToMonth(year)[month - 1]
  }

  /** Year 1 to 9999, month 1 to 12, and a day the month has. */
  predicate ValidDate(year: int, month: int, day: int) {
    1 <= year <= 9999 && 1 <= month <= 12 && 1 <= day <= MonthLength(year, month)
  }

  /** Days before January 1 of the year. */
  function DaysBeforeYear(year: int): int
    requires year >= 1
  {
    var y := year - 1;
    y * 365 + y / 4 - y / 100 + y / 400
  }

  /** The day number of a date, counted from 0001-01-01 as day 0. */
  function DayNumber(year: int, month: int, day: int): int
    requires ValidDate(year, month, day)
  {
    DaysBeforeYear(year) + DaysToMonth(year)[month - 1] + day - 1
  }

  // ---- Splitting a day number into periods ----

  /** Whole 400-, 100-, 4- and 1-year periods before a day, and the day's index in its year. */
  datatype Split = Split(cycles: int, centuries: int, quads: int, years: int, dayOfYear: int)

  /**
   * The split of the date properties: a quotient per period, where the
   * quotient 4 (the last day of a 400-year or of a 4-year period) is taken
   * as 3.
   */
  function SplitDay(n: int): Split
    requires n >= 0
  {
    var y400 := n / DaysPer400Years;
    var n1 := n - y400 * DaysPer400Years;
    var y100 := if n1 / DaysPer100Years == 4 then 3 else n1 / DaysPer100Years;
    var n2 := n1 - y100 * DaysPer100Years;
    var y4 := n2 / DaysPer4Years;
    var n3 := n2 - y4 * DaysPer4Years;
    var y1 := if n3 / DaysPerYear == 4 then 3 else n3 / DaysPerYear;
    Split(y400, y100, y4, y1, n3 - y1 * DaysPerYear)
  }

  function SplitYear(p: Split): int {
    p.cycles * 400 + p.centuries * 100 + p.quads * 4 + p.years + 1
  }

  /** The leap test on a split: the last year of a 4-year period, unless that is a century not divisible by 400. */
  predicate SplitLeap(p: Split) {
    p.years == 3 && (p.quads != 24 || p.centuries == 3)
  }

  function SplitDays(p: Split): int {
    p.cycles * DaysPer400Years + p.centuries * DaysPer100Years + p.quads * DaysPer4Years
      + p.years * DaysPerYear + p.dayOfYear
  }

  /** Each period count below the next period's size, and the day within its year. */
  predicate Proper(p: Split) {
    && p.cycles >= 0 && 0 <= p.centuries <= 3 && 0 <= p.quads <= 24 && 0 <= p.years <= 3
    && 0 <= p.dayOfYear < (if SplitLeap(p) then 366 else 365)
  }

  /** The split of a day number is proper and adds up to it. */
  lemma SplitDayProper(n: int)
    requires n >= 0
    ensures Proper(SplitDay(n)) && SplitDays(SplitDay(n)) == n
  {
    var p := SplitDay(n);
    var n1 := n - p.cycles * DaysPer400Years;
    assert 0 <= n1 < DaysPer400Years by {
      DivBounds(n, DaysPer400Years);
    }
    var n2 := n1 - p.centuries * DaysPer100Years;
    assert 0 <= n2 <= DaysPer100Years && (n2 == DaysPer100Years ==> p.centuries == 3) by {
      DivBounds(n1, DaysPer100Years);
    }
    var n3 := n2 - p.quads * DaysPer4Years;
    assert 0 <= p.quads <= 24 && 0 <= n3 < DaysPer4Years by {
      DivBounds(n2, DaysPer4Years);
    }
    assert p.quads == 24 ==> n3 == n2 - 35064;
    assert 0 <= p.years <= 3 && 0 <= p.dayOfYear <= 365 && (p.dayOfYear == 365 ==> p.years == 3 && n3 == 1460) by {
      DivBounds(n3, DaysPerYear);
    }
  }

  /** A proper split is the split of the days it adds up to. */
  lemma SplitDayUnique(p: Split)
    requires Proper(p)
    ensures SplitDays(p) >= 0 && SplitDay(SplitDays(p)) == p
  {
    var n := SplitDays(p);
    var n3 := p.years * DaysPerYear + p.dayOfYear;
    var n2 := p.quads * DaysPer4Years + n3;
    var n1 := p.centuries * DaysPer100Years + n2;
    assert 0 <= n3 <= 1460 && (n3 == 1460 ==> p.dayOfYear == 365);
    assert 0 <= n2 <= DaysPer100Years && (n2 == DaysPer100Years ==> p.centuries == 3 && p.dayOfYear == 365);
    assert 0 <= n1 < DaysPer400Years;
    assert n == p.cycles * DaysPer400Years + n1;
    DivModUnique(n, DaysPer400Years, p.cycles, n1);
    if n2 == DaysPer100Years {
      DivModUnique(n1, DaysPer100Years, 4, 0);
    } else {
      DivModUnique(n1, DaysPer100Years, p.centuries, n2);
    }
    DivModUnique(n2, DaysPer4Years, p.quads, n3);
    if p.dayOfYear == 365 {
      DivModUnique(n3, DaysPerYear, 4, 0);
    } else {
      DivModUnique(n3, DaysPerYear, p.years, p.dayOfYear);
    }
  }

  /** A proper split's year is a leap year exactly when the split says so, and the days before it are the whole periods. */
  lemma SplitYearFacts(p: Split)
    requires Proper(p)
    ensures SplitYear(p) >= 1
    ensures SplitLeap(p) <==> LeapYear(SplitYear(p))
    ensures DaysBeforeYear(SplitYear(p)) + p.dayOfYear == SplitDays(p)
  {
    var a, b, c, e := p.cycles, p.centuries, p.quads, p.years;
    var y := SplitYear(p) - 1;
    assert y / 4 == 100 * a + 25 * b + c by {
      DivModUnique(y, 4, 100 * a + 25 * b + c, e);
    }
    assert y / 100 == 4 * a + b by {
      DivModUnique(y, 100, 4 * a + b, 4 * c + e);
    }
    assert y / 400 == a by {
      DivModUnique(y, 400, a, 100 * b + 4 * c + e);
    }
    LeapOfPeriods(a, b, c, e);
  }

  /** The leap rule on a year written as whole periods. */
  lemma LeapOfPeriods(a: int, b: int, c: int, e: int)
    requires a >= 0 && 0 <= b <= 3 && 0 <= c <= 24 && 0 <= e <= 3
    ensures LeapYear(a * 400 + b * 100 + c * 4 + e + 1) <==> e == 3 && (c != 24 || b == 3)
  {
    var year := a * 400 + b * 100 + c * 4 + e + 1;
    if e == 3 {
      DivModUnique(year, 4, 100 * a + 25 * b + c + 1, 0);
    } else {
      DivModUnique(year, 4, 100 * a + 25 * b + c, e + 1);
    }
    if c == 24 && e == 3 {
      DivModUnique(year, 100, 4 * a + b + 1, 0);
    } else {
      DivModUnique(year, 100, 4 * a + b, 4 * c + e + 1);
    }
    if b == 3 && c == 24 && e == 3 {
      DivModUnique(year, 400, a + 1, 0);
    } else {
      DivModUnique(year, 400, a, 100 * b + 4 * c + e + 1);
    }
  }

  /** A year and a day within it, written as a proper split. */
  lemma SplitOfYear(year: int, dayOfYear: int)
    requires year >= 1 && 0 <= dayOfYear < YearLength(year)
    ensures var y := year - 1;
      var p := Split(y / 400, y % 400 / 100, y % 100 / 4, y % 4, dayOfYear);
      Proper(p) && SplitYear(p) == year
  {
    var y := year - 1;
    var p := Split(y / 400, y % 400 / 100, y % 100 / 4, y % 4, dayOfYear);
    assert y % 400 == y % 400 / 100 * 100 + y % 100 by {
      DivModUnique(y, 100, 4 * (y / 400) + y % 400 / 100, y % 400 % 100);
      DivBounds(y % 400, 100);
    }
    assert y % 100 == y % 100 / 4 * 4 + y % 4 by {
      DivModUnique(y, 4, 25 * (y / 100) + y % 100 / 4, y % 100 % 4);
      DivBounds(y % 100, 4);
    }
    assert SplitYear(p) == year;
    LeapOfPeriods(p.cycles, p.centuries, p.quads, p.years);
  }

  // ---- Months ----

  /** Each table increases strictly from month to month. */
  lemma TableIncreasing(table: seq<int>, i: int, j: int)
    requires MonthTable(table) && 0 <= i < j <= 12
    ensures table[i] < table[j]
  {
  }

  /** The month whose days hold the day of the year, searched from month m on. */
  function MonthFrom(table: seq<int>, dayOfYear: int, m: int): (r: int)
    requires MonthTable(table) && 1 <= m <= 12 && table[m - 1] <= dayOfYear < table[12]
    ensures m <= r <= 12 && table[r - 1] <= dayOfYear < table[r]
    decreases 12 - m
  {
    if dayOfYear >= table[m] then MonthFrom(table, dayOfYear, m + 1) else m
  }

  /** The search finds the one month whose days hold the day of the year. */
  lemma {:induction false} MonthFromUnique(table: seq<int>, dayOfYear: int, m: int, month: int)
    requires MonthTable(table) && 1 <= m <= month <= 12 && table[month - 1] <= dayOfYear < table[month]
    ensures table[m - 1] <= dayOfYear && MonthFrom(table, dayOfYear, m) == month
    decreases 12 - m
  {
    if m < month {
      TableIncreasing(table, m - 1, month - 1);
      TableIncreasing(table, m, month);
      if m + 1 < month {
        TableIncreasing(table, m, month - 1);
      }
      MonthFromUnique(table, dayOfYear, m + 1, month);
    } else {
      TableIncreasing(table, m - 1, 12);
    }
  }

  // ---- Dates of day numbers ----

  datatype Date = Date(year: int, month: int, day: int)

  /** The date of a day number: the year from its split, then the month and day from the year's table. */
  function DateOfDay(n: int): Date
    requires n >= 0
  {
    var p := SplitDay(n);
    SplitDayProper(n);
    var table := if SplitLeap(p) then DaysToMonth366 else DaysToMonth365;
    var m := MonthFrom(table, p.dayOfYear, 1);
    Date(SplitYear(p), m, p.dayOfYear - table[m - 1] + 1)
  }

  /** The year and the day of the year of a day number. */
  lemma DateOfDayYear(n: int)
    requires n >= 0
    ensures var p := SplitDay(n);
      SplitYear(p) >= 1 && DateOfDay(n).year == SplitYear(p)
      && DaysBeforeYear(SplitYear(p)) + p.dayOfYear == n && 0 <= p.dayOfYear < YearLength(SplitYear(p))
      && DaysToMonth(SplitYear(p)) == (if SplitLeap(p) then DaysToMonth366 else DaysToMonth365)
  {
    SplitDayProper(n);
    SplitYearFacts(SplitDay(n));
  }

  /** Every day number before 10000-01-01 has a valid date, whose day number it is. */
  lemma DayNumberOfDate(n: int)
    requires 0 <= n < DaysTo10000
    ensures var d := DateOfDay(n);
      ValidDate(d.year, d.month, d.day) && DayNumber(d.year, d.month, d.day) == n
  {
    var p := SplitDay(n);
    DateOfDayYear(n);
    var year := SplitYear(p);
    assert year <= 9999 by {
      if year >= 10000 {
        DaysBeforeYearMonotone(10000, year);
      }
    }
  }

  /** Later years start later. */
  lemma DaysBeforeYearMonotone(a: int, b: int)
    requires 1 <= a <= b
    ensures DaysBeforeYear(a) <= DaysBeforeYear(b)
  {
    var x, y := a - 1, b - 1;
    assert x / 4 <= y / 4 && x / 400 <= y / 400;
    assert y / 100 - x / 100 <= (y - x) / 100 + 1 by {
      DivBounds(x, 100);
      DivBounds(y, 100);
      DivBounds(y - x, 100);
    }
    assert (y - x) / 100 * 100 <= y - x by {
      DivBounds(y - x, 100);
    }
  }

  /** The split of a day within a year gives back the year and the day of the year. */
  lemma SplitOfYearDay(year: int, dayOfYear: int)
    requires year >= 1 && 0 <= dayOfYear < YearLength(year)
    ensures DaysBeforeYear(year) + dayOfYear >= 0
    ensures var p := SplitDay(DaysBeforeYear(year) + dayOfYear);
      SplitYear(p) == year && p.dayOfYear == dayOfYear && (SplitLeap(p) <==> LeapYear(year))
  {
    var y := year - 1;
    var p := Split(y / 400, y % 400 / 100, y % 100 / 4, y % 4, dayOfYear);
    SplitOfYear(year, dayOfYear);
    SplitYearFacts(p);
    SplitDayUnique(p);
  }

  /** The date of a day within a year: that year, and the month and day its table gives. */
  lemma DateOfYearDay(year: int, dayOfYear: int)
    requires year >= 1 && 0 <= dayOfYear < YearLength(year)
    ensures DaysBeforeYear(year) + dayOfYear >= 0
    ensures var table := DaysToMonth(year);
      var m := MonthFrom(table, dayOfYear, 1);
      DateOfDay(DaysBeforeYear(year) + dayOfYear) == Date(year, m, dayOfYear - table[m - 1] + 1)
  {
    SplitOfYearDay(year, dayOfYear);
  }

  /** The first day of the year 9999 and the last day of the calendar. */
  lemma LastDays(year: int)
    requires 1 <= year <= 9999
    ensures DaysBeforeYear(year) + YearLength(year) <= DaysTo10000
  {
    DaysBeforeYearMonotone(year, 9999);
  }

  /** A valid date is the date of its day number. */
  lemma DateOfDayNumber(year: int, month: int, day: int)
    requires ValidDate(year, month, day)
    ensures 0 <= DayNumber(year, month, day) < DaysTo10000
    ensures DateOfDay(DayNumber(year, month, day)) == Date(year, month, day)
  {
    var table := DaysToMonth(year);
    var dayOfYear := table[month - 1] + day - 1;
    assert dayOfYear < YearLength(year) by {
      if month < 12 {
        TableIncreasing(table, month, 12);
      }
    }
    var n := DayNumber(year, month, day);
    assert n == DaysBeforeYear(year) + dayOfYear;
    assert n < DaysTo10000 by {
      LastDays(year);
    }
    assert MonthFrom(table, dayOfYear, 1) == month by {
      MonthFromUnique(table, dayOfYear, 1, month);
    }
    DateOfYearDay(year, dayOfYear);
  }

  /** Stepping a count by one moves its quotient by one exactly when the new count is a multiple. */
  lemma QuotientStep(x: int, m: int)
    requires x >= 0 && m > 0
    ensures (x + 1) / m - x / m == if (x + 1) % m == 0 then 1 else 0
  {
    var q, r := x / m, x % m;
    DivBounds(x, m);
    if r == m - 1 {
      DivModUnique(x + 1, m, q + 1, 0);
    } else {
      DivModUnique(x + 1, m, q, r + 1);
    }
  }

  /** A year has 366 days exactly when it is a leap year: the next year starts that much later. */
  lemma YearLengthOfLeap(year: int)
    requires year >= 1
    ensures DaysBeforeYear(year + 1) - DaysBeforeYear(year) == YearLength(year)
  {
    var y := year - 1;
    QuotientStep(y, 4);
    QuotientStep(y, 100);
    QuotientStep(y, 400);
    if year % 100 == 0 {
      DivBounds(year, 100);
      DivModUnique(year, 4, year / 100 * 25, 0);
    }
    if year % 400 == 0 {
      DivBounds(year, 400);
      DivModUnique(year, 100, year / 400 * 4, 0);
    }
  }

  /** The day of the week of a day number, 0 for Sunday: 0001-01-01 was a Monday. */
  function DayOfWeek(n: int): (w: int)
    ensures 0 <= w < 7
  {
    (n + 1) % 7
  }
}
