/**
 Dates as day numbers (libpqtypes, datetime.c): two formulas of divisions, in 32-bit arithmetic, and
 the calendar they are inverse on.
 */
module JulianDay {
  import opened Basics

  // ----- the calendar -----

  /** A day of the Gregorian calendar; year 0 is 1 BC, -1 is 2 BC and so on. */
  datatype Date = Date(year: int, month: int, day: int)

  predicate IsLeap(year: int) { year % 4 == 0 && (year % 100 != 0 || year % 400 == 0) }

  function DaysIn(year: int, month: int): int {
    if month == 2 then (if IsLeap(year) then 29 else 28)
    else if month == 4 || month == 6 || month == 9 || month == 11 then 30
    else 31
  }

  predicate IsDate(d: Date) { 1 <= d.month <= 12 && 1 <= d.day <= DaysIn(d.year, d.month) }

  function Next(d: Date): Date {
    if d.day < DaysIn(d.year, d.month) then Date(d.year, d.month, d.day + 1)
    else if d.month < 12 then Date(d.year, d.month + 1, 1)
    else Date(d.year + 1, 1, 1)
  }

  // ----- counting days -----

  /** Years counted from March on: January and February belong to the year before. */
  function MarchYear(year: int, month: int): int { if month > 2 then year else year - 1 }

  /** March is 4, February 15. */
  function MarchMonth(month: int): int { if month > 2 then month + 1 else month + 13 }

  /** Days of a year before a month, from March on. */
  function DaysBefore(m: int): int {
    if m <= 4 then 0
    else if m == 5 then 31
    else if m == 6 then 61
    else if m == 7 then 92
    else if m == 8 then 122
    else if m == 9 then 153
    else if m == 10 then 184
    else if m == 11 then 214
    else if m == 12 then 245
    else if m == 13 then 275
    else if m == 14 then 306
    else 337
  }

  /** Days before the first of March of a year. */
  function YearDays(y: int): int { 365 * y + y / 4 - y / 100 + y / 400 }

  const POSTGRES_EPOCH_JDATE: int := 2451545
  const UNIX_EPOCH_JDATE: int := 2440588

  /** The Julian day number. */
  function DayNumber(d: Date): int {
    YearDays(MarchYear(d.year, d.month) + 4800) + DaysBefore(MarchMonth(d.month)) + d.day - 1 - 32044
  }

  lemma YearLength(y: int)
    ensures YearDays(y + 1) - YearDays(y) == if IsLeap(y + 1) then 366 else 365
  {
    assert (y + 1) / 4 - y / 4 == if (y + 1) % 4 == 0 then 1 else 0;
    assert (y + 1) / 100 - y / 100 == if (y + 1) % 100 == 0 then 1 else 0;
    assert (y + 1) / 400 - y / 400 == if (y + 1) % 400 == 0 then 1 else 0;
  }

  lemma SameRest(x: int, q: int, r: int, m: int)
    requires m > 0 && x == q * m + r && 0 <= r < m
    ensures x % m == r && x / m == q
  {
    OneMoreTime(x / m, q, m);
    OneMoreTime(q, x / m, m);
  }

  lemma OneMoreTime(a: int, b: int, m: int)
    requires m > 0
    ensures a < b ==> a * m + m <= b * m
  {
    if a < b { assert (a + 1) * m <= b * m; }
  }

  lemma LeapShifted(year: int)
    ensures IsLeap(year + 4800) <==> IsLeap(year)
  {
    SameRest(year + 4800, year / 4 + 1200, year % 4, 4);
    SameRest(year + 4800, year / 100 + 48, year % 100, 100);
    SameRest(year + 4800, year / 400 + 12, year % 400, 400);
  }

  /** From each day to the next the number grows by one, over every end of a month and of a year. */
  lemma NextDayCountsOne(d: Date)
    requires IsDate(d)
    ensures IsDate(Next(d)) && DayNumber(Next(d)) == DayNumber(d) + 1
  {
    YearLength(d.year - 1 + 4800);
    LeapShifted(d.year);
    hide YearDays;
  }

  /** Where the count stands: the two epochs the program relies on. */
  lemma EpochsAreCounted()
    ensures DayNumber(Date(2000, 1, 1)) == POSTGRES_EPOCH_JDATE && DayNumber(Date(1970, 1, 1)) == UNIX_EPOCH_JDATE
    ensures DayNumber(Date(-4713, 11, 24)) == 0
  {}

  // ----- one number, one day -----

  /** Days since the first of March. */
  function MarchDay(d: Date): int { DaysBefore(MarchMonth(d.month)) + d.day - 1 }

  lemma MarchDayInYear(d: Date)
    requires IsDate(d)
    ensures 0 <= MarchDay(d) < YearDays(MarchYear(d.year, d.month) + 1) - YearDays(MarchYear(d.year, d.month))
  {
    YearLength(MarchYear(d.year, d.month));
    hide YearDays;
  }

  lemma ShiftedYears(y: int)
    ensures YearDays(y + 4800) == YearDays(y) + 12 * 146097
  {
    SameRest(y + 4800, y / 4 + 1200, y % 4, 4);
    SameRest(y + 4800, y / 100 + 48, y % 100, 100);
    SameRest(y + 4800, y / 400 + 12, y % 400, 400);
  }

  lemma {:induction false} YearsGrow(a: int, b: int)
    requires a < b
    ensures YearDays(a + 1) <= YearDays(b)
    decreases b - a
  {
    if a + 1 < b {
      YearLength(b - 1);
      YearsGrow(a, b - 1);
    }
  }

  lemma SameDay(d: Date, e: Date)
    requires IsDate(d) && IsDate(e) && MarchYear(d.year, d.month) == MarchYear(e.year, e.month) && MarchDay(d) == MarchDay(e)
    ensures d == e
  {}

  /** No two days have the same number. */
  lemma NumberIsOfOneDay(d: Date, e: Date)
    requires IsDate(d) && IsDate(e) && DayNumber(d) == DayNumber(e)
    ensures d == e
  {
    hide YearDays;
    hide IsDate;
    hide MarchYear;
    hide DaysBefore;
    hide MarchMonth;
    var y, z := MarchYear(d.year, d.month), MarchYear(e.year, e.month);
    MarchDayInYear(d);
    MarchDayInYear(e);
    ShiftedYears(y);
    ShiftedYears(z);
    if y < z { YearsGrow(y, z); }
    if z < y { YearsGrow(z, y); }
    SameDay(d, e);
  }

  // ----- from a date to its number -----

  predicate FitsInt(x: int) { -INT_MAX - 1 <= x <= INT_MAX }

  /** Division of signed numbers rounds towards zero. */
  function Div(x: int, y: int): int
    requires y > 0
  {
    if x >= 0 then x / y else -(-x / y)
  }

  /** Days up to the first of a month, in the program's way. */
  lemma MonthFormula(m: int)
    requires 4 <= m <= 15
    ensures 7834 * m / 256 == DaysBefore(m) + 122
  {}

  /** What the rounding of negative numbers adds: a day too many before March of 4801 BC, but not in leap years. */
  function RoundingError(marchYear: int): int { if marchYear < -4800 && !IsLeap(marchYear) then 1 else 0 }

  lemma RoundedTowardsZero(y: int, m: int)
    requires y < 0 && (m == 4 || m == 100 || m == 400)
    ensures Div(y, m) == y / m + if y % m == 0 then 0 else 1
  {}

  lemma CenturiesByFour(y: int)
    ensures Div(Div(y, 100), 4) == Div(y, 400)
  {
    if y >= 0 { assert y / 100 / 4 == y / 400; } else { assert -y / 100 / 4 == -y / 400; }
  }

  lemma YearFormula(y: int)
    ensures Div(y, 4) - Div(y, 100) + Div(Div(y, 100), 4) == y / 4 - y / 100 + y / 400 + RoundingError(y - 4800)
  {
    CenturiesByFour(y);
    LeapShifted(y - 4800);
    if y < 0 {
      RoundedTowardsZero(y, 4);
      RoundedTowardsZero(y, 100);
      RoundedTowardsZero(y, 400);
      LeapRests(y);
      hide IsLeap;
      hide Div;
    }
  }

  lemma LeapRests(y: int)
    ensures IsLeap(y) <==> y % 4 == 0 && (y % 100 != 0 || y % 400 == 0)
    ensures y % 400 == 0 ==> y % 100 == 0
    ensures y % 100 == 0 ==> y % 4 == 0
  {
    if y % 400 == 0 { SameRest(y, 4 * (y / 400), 0, 100); }
    if y % 100 == 0 { SameRest(y, 25 * (y / 100), 0, 4); }
  }

  /** The sum before the month is added and that behind it are no larger than an `int`. */
  predicate Computable(d: Date) {
    FitsInt(YearDays(MarchYear(d.year, d.month) + 4800) - 32167) && FitsInt(DayNumber(d))
  }

  /** Any year, month and day of month there may be, also the thirtieth of February. */
  method Date2j(year: int, month: int, day: int) returns (julian: int)
    requires 1 <= month <= 12 && 1 <= day <= 31 && Computable(Date(year, month, day))
    ensures julian == DayNumber(Date(year, month, day)) + RoundingError(MarchYear(year, month)) && FitsInt(julian)
  {
    var y, m := year, month;
    if m > 2 {
      m := m + 1;
      y := y + 4800;
    } else {
      m := m + 13;
      y := y + 4799;
    }
    assert y == MarchYear(year, month) + 4800 && m == MarchMonth(month);
    StaysInRange(y, m, day);
    YearFormula(y);
    MonthFormula(m);
    hide DaysBefore;
    hide RoundingError;
    hide MarchYear;
    hide MarchMonth;
    hide Div;
    var century := Div(y, 100);
    assert FitsInt(y) && FitsInt(y * 365);
    julian := y * 365 - 32167;
    assert FitsInt(julian) && FitsInt(Div(y, 4) - century);
    julian := julian + (Div(y, 4) - century + Div(century, 4));
    assert FitsInt(julian) && FitsInt(7834 * m);
    julian := julian + (7834 * m / 256 + day);
  }

  /** No step of the computation leaves the range of `int`. */
  lemma StaysInRange(y: int, m: int, day: int)
    requires 4 <= m <= 15 && 1 <= day <= 31
    requires FitsInt(YearDays(y) - 32167) && FitsInt(YearDays(y) + DaysBefore(m) + day - 1 - 32044)
    ensures FitsInt(y) && FitsInt(365 * y) && FitsInt(365 * y - 32167) && FitsInt(Div(y, 4) - Div(y, 100))
    ensures FitsInt(YearDays(y) - 32167 + RoundingError(y - 4800))
    ensures FitsInt(YearDays(y) + DaysBefore(m) + day - 1 - 32044 + RoundingError(y - 4800))
  {
    DaysBeforeBound(m);
    LeapDaysBound(y);
    QuotientsBound(y);
    hide DaysBefore;
    hide IsLeap;
    hide Div;
  }

  lemma DaysBeforeBound(m: int)
    ensures 0 <= DaysBefore(m) <= 337
  {}

  lemma LeapDaysBound(y: int)
    ensures y >= 0 ==> 24 * y - 200 <= 100 * (y / 4 - y / 100 + y / 400) <= 26 * y + 200
    ensures y < 0 ==> 26 * y - 200 <= 100 * (y / 4 - y / 100 + y / 400) <= 0
  {
    if y < 0 { assert y / 4 <= y / 100; assert y / 400 < 0; }
  }

  lemma QuotientsBound(y: int)
    ensures y >= 0 ==> 0 <= Div(y, 4) - Div(y, 100) <= y
    ensures y < 0 ==> y <= Div(y, 4) - Div(y, 100) <= 0
  {
    if y >= 0 { assert y / 100 <= y / 4; } else { assert -y / 100 <= -y / 4; }
  }

  // ----- from a number to its date -----

  /** Arithmetic on `unsigned int` wraps around. */
  function Unsigned(x: int): nat { x % 0x1_0000_0000 }

  lemma NotWrapped(x: int)
    requires 0 <= x < 0x1_0000_0000
    ensures Unsigned(x) == x
  {}

  /** Also a negative number comes out right if the sum is none. */
  lemma WrappedBack(x: int, k: nat)
    requires 0 <= x + k < 0x1_0000_0000
    ensures Unsigned(Unsigned(x) + k) == x + k
  {}

  /** A day in cycles of 400, 100, 4 years and single ones; `t` counts from the first of March. */
  predicate IsCycle(n: int, q: int, c: int, f: int, a: int, t: int) {
    && n == 146097 * q + 36524 * c + 1461 * f + 365 * a + t
    && 0 <= q && 0 <= c <= 3 && 0 <= f <= 24 && 0 <= a <= 3 && 0 <= t <= 365
    && (t == 365 ==> a == 3 && (f < 24 || c == 3))
  }

  lemma Cycles(n: nat) returns (q: int, c: int, f: int, a: int, t: int)
    ensures IsCycle(n, q, c, f, a, t)
  {
    q := n / 146097;
    var r := n % 146097;
    c := if r / 36524 < 4 then r / 36524 else 3;
    var u := r - 36524 * c;
    f := u / 1461;
    var v := u % 1461;
    a := if v / 365 < 4 then v / 365 else 3;
    t := v - 365 * a;
  }

  lemma CycleYear(n: int, q: int, c: int, f: int, a: int, t: int)
    requires IsCycle(n, q, c, f, a, t)
    ensures var y := 400 * q + 100 * c + 4 * f + a; YearDays(y) == n - t && (t == 365 ==> IsLeap(y + 1))
  {
    var y := 400 * q + 100 * c + 4 * f + a;
    SameRest(y, 100 * q + 25 * c + f, a, 4);
    SameRest(y, 4 * q + c, 4 * f + a, 100);
    SameRest(y, q, 100 * c + 4 * f + a, 400);
    if t == 365 {
      SameRest(y + 1, 100 * q + 25 * c + f + 1, 0, 4);
      if f < 24 { SameRest(y + 1, 4 * q + c, 4 * f + 4, 100); } else { SameRest(y + 1, q + 1, 0, 400); }
    }
  }

  /** The first two divisions find the cycle of 400 years and the century in it. */
  lemma CenturyFound(n: int, q: int, c: int, f: int, a: int, t: int)
    requires IsCycle(n, q, c, f, a, t)
    ensures n / 146097 == q && ((n - q * 146097) * 4 + 3) / 146097 == c
  {
    var u := 1461 * f + 365 * a + t;
    assert 0 <= u <= 36524 && (u == 36524 ==> c == 3);
    assert n == 146097 * q + (36524 * c + u);
    assert (36524 * c + u) * 4 + 3 == 146097 * c + (4 * u + 3 - c);
  }

  /** With the dropped leap days back in, cycles of four years start in January. */
  lemma YearFound(b: int, a: int, t: int)
    requires 0 <= b && 0 <= a <= 3 && 0 <= t <= 365 && (t == 365 ==> a == 3)
    ensures var w := 1461 * b + 365 * a + t + 60; var quad := w / 1461; var r := w - quad * 1461; var y := r * 4 / 1461;
            && 0 <= r < 1461 && 0 <= y <= 3
            && y + 4 * quad == 4 * b + a + (if t >= 306 then 1 else 0)
            && (if y != 0 then (r + 305) % 365 else (r + 306) % 366) == t
  {
    var v := 365 * a + t + 60;
    var quad, r := if v >= 1461 then b + 1 else b, if v >= 1461 then v - 1461 else v;
    SameRest(1461 * b + v, quad, r, 1461);
    if v < 1461 { YearInCycle(a, t); }
  }

  lemma YearInCycle(a: int, t: int)
    requires 0 <= a <= 3 && 0 <= t <= 365 && (t == 365 ==> a == 3) && 365 * a + t + 60 < 1461
    ensures var r := 365 * a + t + 60; var y := r * 4 / 1461;
            && y == a + (if t >= 306 then 1 else 0)
            && (if y != 0 then (r + 305) % 365 else (r + 306) % 366) == t
  {
    if a == 0 {} else if a == 1 {} else if a == 2 {} else {}
  }

  /** Length of a month counted from March on; February may have 29 days. */
  function MarchLength(m: int): int { if m == 15 then 29 else DaysBefore(m + 1) - DaysBefore(m) }

  /** Month and day from the days since the first of March. */
  lemma MonthFound(t: int)
    requires 0 <= t <= 365
    ensures var quad := (t + 123) * 2141 / 65536; var day := t + 123 - 7834 * quad / 256;
            4 <= quad <= 15 && DaysBefore(quad) + day - 1 == t && 1 <= day <= MarchLength(quad)
  {}

  /** A month counted from March on is a month of the year. */
  lemma MonthNamed(m: int)
    requires 4 <= m <= 15
    ensures 1 <= (m + 10) % 12 + 1 <= 12 && MarchMonth((m + 10) % 12 + 1) == m && ((m + 10) % 12 + 1 > 2 <==> m <= 13)
  {}

  /** The date found is a day of the calendar, with this number. */
  lemma DateFound(n: int, y: int, m: int, day: int, t: int)
    requires 4 <= m <= 15 && DaysBefore(m) + day - 1 == t && 1 <= day <= MarchLength(m)
    requires YearDays(y) == n - t && (t == 365 ==> IsLeap(y + 1))
    ensures var d := Date((if t >= 306 then y + 1 else y) - 4800, (m + 10) % 12 + 1, day);
            IsDate(d) && DayNumber(d) == n - 32044
  {
    MonthNamed(m);
    hide YearDays;
    LeapShifted(y + 1 - 4800);
    assert m >= 14 <==> t >= 306;
  }

  /** What the century adds to the leap days. */
  function Centuries(n: nat): nat { ((n - n / 146097 * 146097) * 4 + 3) / 146097 }

  /** The first part: the leap days that the Gregorian rule drops are put back in. */
  method AddLeapDays(n: nat) returns (julian: nat)
    requires n < 0x1_0000_0000
    ensures julian == Unsigned(n + 60 + n / 146097 * 3 + Centuries(n))
  {
    hide Unsigned;
    var quad := n / 146097;
    NotWrapped((n - quad * 146097) * 4 + 3);
    var extra := Unsigned((n - quad * 146097) * 4 + 3);
    julian := Unsigned(n + (60 + quad * 3 + extra / 146097));
  }

  function YearIn(w: nat): nat { (w - w / 1461 * 1461) * 4 / 1461 + w / 1461 * 4 }

  /** Days since the first of March. */
  function DayIn(w: nat): (t: nat)
    ensures t <= 365
  {
    var r := w - w / 1461 * 1461;
    if r * 4 / 1461 != 0 then (r + 305) % 365 else (r + 306) % 366
  }

  /** The second: cycles of four years, the year, and the days since the first of March. */
  method YearOf(w: nat) returns (year: int, julian: nat)
    requires w < 0x1_0000_0000
    ensures year == YearIn(w) && julian == DayIn(w) + 123
  {
    hide Unsigned;
    var quad := w / 1461;
    NotWrapped(w - quad * 1461);
    julian := Unsigned(w - quad * 1461);
    NotWrapped(julian * 4);
    var y: int := Unsigned(julian * 4) / 1461;
    NotWrapped(julian + 305);
    NotWrapped(julian + 306);
    NotWrapped(DayIn(w) + 123);
    julian := Unsigned((if y != 0 then Unsigned(julian + 305) % 365 else Unsigned(julian + 306) % 366) + 123);
    year := y + quad * 4;
  }

  /** The third: month and day. */
  method MonthAndDay(julian: nat, ghost t: int) returns (month: int, day: int)
    requires 0 <= t <= 365 && julian == t + 123
    ensures var m := MarchMonth(month); 4 <= m <= 15 && DaysBefore(m) + day - 1 == t && 1 <= day <= MarchLength(m) && month == (m + 10) % 12 + 1
  {
    MonthFound(t);
    hide DaysBefore;
    hide MarchLength;
    hide Unsigned;
    NotWrapped(julian * 2141);
    var quad := Unsigned(julian * 2141) / 65536;
    NotWrapped(julian - 7834 * quad / 256);
    day := Unsigned(julian - 7834 * quad / 256);
    NotWrapped(quad + 10);
    month := Unsigned(quad + 10) % 12 + 1;
    MonthNamed(quad);
  }

  /** The first day there are numbers for: the first of March 4801 BC. */
  const FIRST_DAY: int := -32044

  /**
   `jd` as a date. Numbers before the first one wrap around; the years that come of them are later, those
   close to it of numbers that are long before.
   */
  method J2date(jd: int) returns (year: int, month: int, day: int)
    requires FitsInt(jd)
    ensures jd >= FIRST_DAY ==> IsDate(Date(year, month, day)) && DayNumber(Date(year, month, day)) == jd
    ensures jd < FIRST_DAY ==> year >= -4800 && (year < -4796 ==> jd < -110000)
    ensures FitsInt(year) && 1 <= month <= 12 && 1 <= day <= 31
  {
    hide *;
    Wrapped(jd);
    var julian := Unsigned(jd);
    julian := Unsigned(julian + 32044);
    ghost var n := julian;
    julian := AddLeapDays(julian);
    ghost var w := julian;
    WordIs(n + 60 + n / 146097 * 3 + Centuries(n));
    YearIsSmall(w);
    year, julian := YearOf(julian);
    year := year - 4800;
    month, day := MonthAndDay(julian, DayIn(w));
    MonthIs(month, day, DayIn(w));
    if jd >= FIRST_DAY {
      DateReached(jd, w, MarchMonth(month), day);
    } else {
      EarlyYear(jd, n, w);
    }
  }

  lemma WordIs(x: int)
    ensures 0 <= Unsigned(x) < 0x1_0000_0000
  {}

  lemma Wrapped(jd: int)
    requires FitsInt(jd)
    ensures FIRST_DAY == -32044 && jd <= INT_MAX
    ensures var n := Unsigned(Unsigned(jd) + 32044);
            n < 0x1_0000_0000 && n == jd + 32044 + if jd < FIRST_DAY then 0x1_0000_0000 else 0
  {
    if jd >= FIRST_DAY { WrappedBack(jd, 32044); }
  }

  lemma YearIsSmall(w: nat)
    requires w < 0x1_0000_0000
    ensures 0 <= YearIn(w) < 12_000_000 && FitsInt(YearIn(w) - 4800) && DayIn(w) <= 365
  {
    hide DayIn;
  }

  lemma MonthIs(month: int, day: int, t: int)
    requires var m := MarchMonth(month); 4 <= m <= 15 && DaysBefore(m) + day - 1 == t && 1 <= day <= MarchLength(m) && month == (m + 10) % 12 + 1
    ensures 1 <= month <= 12 && 1 <= day <= 31
  {}

  lemma DateReached(jd: int, w: nat, m: int, day: int)
    requires FIRST_DAY <= jd <= INT_MAX && w == Unsigned(jd + 32044 + 60 + (jd + 32044) / 146097 * 3 + Centuries(jd + 32044))
    requires 4 <= m <= 15 && DaysBefore(m) + day - 1 == DayIn(w) && 1 <= day <= MarchLength(m)
    ensures var d := Date(YearIn(w) - 4800, (m + 10) % 12 + 1, day); IsDate(d) && DayNumber(d) == jd
  {
    hide *;
    FirstDayIs();
    var n: nat := jd + 32044;
    var q, c, f, a, t := Cycles(n);
    var y := 400 * q + 100 * c + 4 * f + a;
    CycleYear(n, q, c, f, a, t);
    CycleIs(n, q, c, f, a, t);
    LeapDaysAdded(n, q, c, f, a, t);
    YearFound(100 * q + 25 * c + f, a, t);
    PlacesIn(w);
    DateFound(n, y, m, day, t);
  }

  /** The sum does not wrap around. */
  lemma LeapDaysAdded(n: nat, q: int, c: int, f: int, a: int, t: int)
    requires IsCycle(n, q, c, f, a, t) && n <= INT_MAX + 32044
    ensures Unsigned(n + 60 + n / 146097 * 3 + Centuries(n)) == 1461 * (100 * q + 25 * c + f) + 365 * a + t + 60
  {
    hide *;
    CycleIs(n, q, c, f, a, t);
    CenturyFound(n, q, c, f, a, t);
    CenturiesIs(n);
    IntMaxIs();
    NotWrapped(n + 60 + q * 3 + c);
  }

  lemma FirstDayIs()
    ensures FIRST_DAY == -32044
  {}

  lemma IntMaxIs()
    ensures INT_MAX == 2147483647
  {}

  lemma CenturiesIs(n: nat)
    ensures Centuries(n) == ((n - n / 146097 * 146097) * 4 + 3) / 146097
  {}

  lemma PlacesIn(w: nat)
    ensures var quad := w / 1461; var r := w - quad * 1461; var y := r * 4 / 1461;
            YearIn(w) == y + 4 * quad && DayIn(w) == if y != 0 then (r + 305) % 365 else (r + 306) % 366
  {}

  lemma CycleIs(n: int, q: int, c: int, f: int, a: int, t: int)
    ensures IsCycle(n, q, c, f, a, t) <==>
              && n == 146097 * q + 36524 * c + 1461 * f + 365 * a + t
              && 0 <= q && 0 <= c <= 3 && 0 <= f <= 24 && 0 <= a <= 3 && 0 <= t <= 365
              && (t == 365 ==> a == 3 && (f < 24 || c == 3))
  {}

  /** A number before the first day becomes one of a late year, or wraps around once more. */
  lemma EarlyYear(jd: int, n: nat, w: nat)
    requires FitsInt(jd) && jd < FIRST_DAY && n == jd + 32044 + 0x1_0000_0000
    requires w == Unsigned(n + 60 + n / 146097 * 3 + Centuries(n))
    ensures YearIn(w) < 4 ==> jd < -110000
  {
    assert 0 <= Centuries(n) <= 4;
    if jd >= -110000 {
      assert n / 146097 >= 29397;
      assert w == n + 60 + n / 146097 * 3 + Centuries(n) - 0x1_0000_0000;
      assert w / 1461 >= 1;
    }
  }

  // ----- a date stored and read -----

  /** A date as the caller sees it: era and year, months from 0 on, and some derived fields. */
  class PGdate {
    var isbc: bool
    var year: int
    var mon: int
    var mday: int
    var jday: int
    var yday: int
    var wday: int

    /** Years before Christ as numbers up to 0. */
    function BcToYear(): int
      reads this
    {
      if isbc then -(year - 1) else year
    }

    /** The fields of a date that are stored. */
    function Day(): Date
      reads this
    {
      Date(BcToYear(), mon + 1, mday)
    }

    /** What the program checks before it stores a date. */
    predicate Accepted()
      reads this
    {
      year >= 0 && 0 <= mon <= 11 && 1 <= mday <= 31
    }
  }

  /** The number that is stored, or an error. */
  method PutDate(date: PGdate) returns (ok: bool, dval: int)
    requires Computable(date.Day()) && FitsInt(DayNumber(date.Day()) - POSTGRES_EPOCH_JDATE)
    ensures ok <==> date.Accepted()
    ensures ok ==> dval == DayNumber(date.Day()) - POSTGRES_EPOCH_JDATE + RoundingError(MarchYear(date.BcToYear(), date.mon + 1))
  {
    hide DayNumber;
    hide MarchYear;
    dval := 0;
    if date.year < 0 { return false, dval; }
    if date.mon < 0 || date.mon > 11 { return false, dval; }
    if date.mday < 1 || date.mday > 31 { return false, dval; }
    dval := Date2j(date.BcToYear(), date.mon + 1, date.mday);
    dval := dval - POSTGRES_EPOCH_JDATE;
    ok := true;
  }

  /** From the first day on dates and the beginnings of their years can be computed. */
  lemma YearBegins(d: Date)
    requires IsDate(d) && FIRST_DAY <= DayNumber(d) <= INT_MAX
    ensures Computable(d) && Computable(Date(d.year, 1, 1)) && FitsInt(d.year)
    ensures RoundingError(MarchYear(d.year, d.month)) == 0
    ensures RoundingError(MarchYear(d.year, 1)) <= DayNumber(d) - DayNumber(Date(d.year, 1, 1)) <= 365
  {
    InReach(d);
    DayOfYear(d);
    YearLength(d.year + 4799);
    LeapDaysBound(d.year + 4799);
    LeapDaysBound(d.year + 4800);
    DaysBeforeBound(MarchMonth(d.month));
    hide DaysBefore;
    hide IsLeap;
  }

  lemma DayOfYear(d: Date)
    requires IsDate(d)
    ensures 0 <= DayNumber(d) - DayNumber(Date(d.year, 1, 1)) <= 365
    ensures d.month > 2 ==> DayNumber(d) - DayNumber(Date(d.year, 1, 1)) >= 59
  {
    var y := d.year + 4799;
    YearLength(y);
    LeapShifted(d.year);
    hide YearDays;
  }

  /** Which days of the calendar have numbers before the first: those before the first of March 4801 BC. */
  lemma InReach(d: Date)
    requires IsDate(d)
    ensures DayNumber(d) >= FIRST_DAY <==> MarchYear(d.year, d.month) >= -4800
  {
    var y := MarchYear(d.year, d.month) + 4800;
    LeapDaysBound(y);
    MarchDayInYear(d);
    hide DaysBefore;
    hide MarchYear;
    hide MarchMonth;
    hide IsLeap;
  }

  /** What a year before has at least. */
  lemma EarlyYears(d: Date)
    requires 1 <= d.month <= 12 && 1 <= d.day <= 31
    ensures DayNumber(d) < FIRST_DAY ==> d.year <= -4800
    ensures d.year >= -4800 ==> DayNumber(d) >= -32104
  {
    LeapDaysBound(MarchYear(d.year, d.month) + 4800);
    DaysBeforeBound(MarchMonth(d.month));
    if d.month <= 2 { assert DaysBefore(MarchMonth(d.month)) >= 306; }
    hide DaysBefore;
    hide IsLeap;
  }

  /** The remainder of a signed number has its sign. */
  function Rem(x: int, y: int): int
    requires y > 0
  {
    x - Div(x, y) * y
  }

  /**
   Days of the week from Sunday, 0, to Saturday, 6, one after the other, for day numbers from 0 on; the
   first of January 2000 is a Saturday. Before that the numbers are negative.
   */
  lemma WeekdaysFollow(jd: int)
    ensures jd >= 0 ==> 0 <= Rem(jd + 1, 7) <= 6 && Rem(jd + 2, 7) == if Rem(jd + 1, 7) == 6 then 0 else Rem(jd + 1, 7) + 1
    ensures jd < 0 ==> -6 <= Rem(jd + 1, 7) <= 0 && (Rem(jd + 1, 7) - (jd + 1)) % 7 == 0
    ensures Rem(DayNumber(Date(2000, 1, 1)) + 1, 7) == 6
  {
    EpochsAreCounted();
    hide DayNumber;
  }

  /** The fields that follow from the date: its number, the day of its year and the day of the week. */
  method FillDerived(date: PGdate, ghost jd: int)
    requires 1 <= date.mon <= 12 && 1 <= date.mday <= 31
    requires var d := Date(date.year, date.mon, date.mday); IsDate(d) && DayNumber(d) == jd && FIRST_DAY <= jd <= INT_MAX
    modifies date`jday, date`yday, date`wday
    ensures date.jday == jd && date.wday == Rem(jd + 1, 7) && 0 <= date.yday <= 365
    ensures jd >= 0 ==> date.wday == (jd + 1) % 7
    ensures date.yday == jd - DayNumber(Date(date.year, 1, 1)) - RoundingError(MarchYear(date.year, 1))
  {
    YearBegins(Date(date.year, date.mon, date.mday));
    hide DayNumber;
    hide Computable;
    hide RoundingError;
    date.jday := Date2j(date.year, date.mon, date.mday);
    var first := Date2j(date.year, 1, 1);
    date.yday := date.jday - first;
    date.wday := Rem(date.jday + 1, 7);
  }

  /**
   Fills in a date from the number stored. For numbers before the first day the sums of the derived
   fields may leave the range of `int`; these fields are not followed then.
   */
  method Bin2Pgdate(dval: int, date: PGdate)
    requires FitsInt(dval + POSTGRES_EPOCH_JDATE)
    modifies date
    ensures date.Accepted() && date.year >= 1
    ensures var jd := dval + POSTGRES_EPOCH_JDATE;
            && (jd >= FIRST_DAY ==>
                  && IsDate(date.Day()) && DayNumber(date.Day()) == date.jday == jd
                  && date.yday == jd - DayNumber(Date(date.BcToYear(), 1, 1)) - RoundingError(MarchYear(date.BcToYear(), 1))
                  && 0 <= date.yday <= 365 && date.wday == Rem(jd + 1, 7) && (jd >= 0 ==> date.wday == (jd + 1) % 7))
            && (jd < FIRST_DAY ==> date.BcToYear() >= -4800 && (date.BcToYear() < -4796 ==> jd < -110000))
  {
    hide DayNumber;
    hide MarchYear;
    hide IsDate;
    hide RoundingError;
    hide Rem;
    ghost var jd := dval + POSTGRES_EPOCH_JDATE;
    var year, mon, day := J2date(dval + POSTGRES_EPOCH_JDATE);
    date.isbc, date.year, date.mon, date.mday := false, year, mon, day;
    date.jday, date.yday, date.wday := 0, 0, 0;
    if dval + POSTGRES_EPOCH_JDATE >= FIRST_DAY { FillDerived(date, jd); }
    if date.year <= 0 {
      date.isbc := true;
      date.year := -(date.year - 1);
    }
    date.mon := date.mon - 1;
    assert date.Day() == Date(year, mon, day);
  }

  /**
   For every date that is accepted, era, year, month and day come back as they were exactly if the year
   counts from 1, the day is one of the calendar, and it is not before the first of March 4801 BC. The
   check before storing also lets pass year 0 and the 31st of any month.
   */
  method StoreThenRead(date: PGdate, back: PGdate) returns (ok: bool)
    requires back != date && Computable(date.Day()) && FitsInt(DayNumber(date.Day()) - POSTGRES_EPOCH_JDATE)
    modifies back
    ensures ok <==> date.Accepted()
    ensures ok ==> (back.isbc == date.isbc && back.year == date.year && back.mon == date.mon && back.mday == date.mday
               <==> date.year >= 1 && IsDate(date.Day()) && DayNumber(date.Day()) >= FIRST_DAY)
  {
    hide DayNumber;
    hide MarchYear;
    hide IsDate;
    hide RoundingError;
    var dval;
    ok, dval := PutDate(date);
    if ok {
      ghost var d := date.Day();
      ErrorIs(d);
      Bin2Pgdate(dval, back);
      EarlyYears(d);
      if IsDate(d) {
        InReach(d);
        if dval + POSTGRES_EPOCH_JDATE >= FIRST_DAY && DayNumber(d) == DayNumber(back.Day()) { NumberIsOfOneDay(d, back.Day()); }
      }
    }
  }

  lemma ErrorIs(d: Date)
    requires Computable(d) && 1 <= d.month <= 12 && 1 <= d.day <= 31
    ensures 0 <= RoundingError(MarchYear(d.year, d.month)) <= 1
    ensures MarchYear(d.year, d.month) >= -4800 ==> RoundingError(MarchYear(d.year, d.month)) == 0
    ensures FitsInt(DayNumber(d) + RoundingError(MarchYear(d.year, d.month)))
  {
    LeapDaysBound(MarchYear(d.year, d.month) + 4800);
    DaysBeforeBound(MarchMonth(d.month));
    hide DaysBefore;
    hide IsLeap;
    hide MarchYear;
    hide MarchMonth;
  }
}
