/**
 The proleptic Gregorian calendar, as the reference for every piece of calendar arithmetic in the
 library. Days are numbered from 1970-01-01, which is day 0 and a Thursday.
 */
module Civil {

  datatype Date = Date(year: int, month: int, day: int)

  predicate IsLeap(y: int) {
    y % 4 == 0 && (y % 100 != 0 || y % 400 == 0)
  }

  function DaysInYear(y: int): int {
    if IsLeap(y) then 366 else 365
  }

  function DaysInMonth(y: int, m: int): int
    requires 1 <= m <= 12
  {
    if m == 2 then (if IsLeap(y) then 29 else 28)
    else if m in {4, 6, 9, 11} then 30
    else 31
  }

  predicate Valid(d: Date) {
    1 <= d.month <= 12 && 1 <= d.day <= DaysInMonth(d.year, d.month)
  }

  /** The date on the day after `d`. */
  function Next(d: Date): Date
    requires Valid(d)
  {
    if d.day < DaysInMonth(d.year, d.month) then d.(day := d.day + 1)
    else if d.month < 12 then Date(d.year, d.month + 1, 1)
    else Date(d.year + 1, 1, 1)
  }

  /** Days from 1970-01-01 to the first day of year `y`. */
  function YearStart(y: int): int
    decreases if y < 1970 then 1970 - y else y - 1970
  {
    if y == 1970 then 0
    else if y > 1970 then YearStart(y - 1) + DaysInYear(y - 1)
    else YearStart(y + 1) - DaysInYear(y)
  }

  /** The same without recursion. */
  function YearStartDirect(y: int): int {
    365 * (y - 1970) + (y - 1) / 4 - (y - 1) / 100 + (y - 1) / 400 - 477
  }

  lemma FourthYears(y: int)
    ensures y / 4 == (y - 1) / 4 + if y % 4 == 0 then 1 else 0
  {
  }

  lemma Centuries(y: int)
    ensures y / 100 == (y - 1) / 100 + if y % 100 == 0 then 1 else 0
  {
  }

  lemma FourthCenturies(y: int)
    ensures y / 400 == (y - 1) / 400 + if y % 400 == 0 then 1 else 0
    ensures y % 400 == 0 ==> y % 100 == 0
  {
  }

  lemma CenturiesAreFourthYears(y: int)
    ensures y % 100 == 0 ==> y % 4 == 0
  {
  }

  lemma DirectLength(y: int)
    ensures YearStartDirect(y + 1) == YearStartDirect(y) + DaysInYear(y)
  {
    FourthYears(y);
    Centuries(y);
    FourthCenturies(y);
    CenturiesAreFourthYears(y);
  }

  lemma {:induction false} YearStartIsDirect(y: int)
    ensures YearStart(y) == YearStartDirect(y)
    decreases if y < 1970 then 1970 - y else y - 1970
  {
    if y > 1970 {
      YearStartIsDirect(y - 1);
      DirectLength(y - 1);
    } else if y < 1970 {
      YearStartIsDirect(y + 1);
      DirectLength(y);
    }
  }

  /** Days of year `y` before its month `m`. */
  function DaysBefore(y: int, m: int): int
    requires 1 <= m <= 13
  {
    [0, 31, 59, 90, 120, 151, 181, 212, 243, 273, 304, 334, 365][m - 1] + if m > 2 && IsLeap(y) then 1 else 0
  }

  function DayNumber(d: Date): int
    requires Valid(d)
  {
    YearStart(d.year) + DaysBefore(d.year, d.month) + d.day - 1
  }

  lemma YearLength(y: int)
    ensures YearStart(y + 1) == YearStart(y) + DaysInYear(y)
  {
  }

  lemma {:induction false} YearsGrow(y: int, z: int)
    requires y <= z
    ensures YearStart(z) >= YearStart(y) + 365 * (z - y)
    decreases z - y
  {
    if y < z {
      YearsGrow(y, z - 1);
      YearLength(z - 1);
    }
  }

  /** The calendar and the numbering of days advance together. */
  lemma NextIsNext(d: Date)
    requires Valid(d)
    ensures Valid(Next(d)) && DayNumber(Next(d)) == DayNumber(d) + 1
  {
    YearLength(d.year);
  }

  // ---------------------------------------------------------------- from a day number to its date

  function YearOf(n: int): (y: int)
    ensures YearStart(y) <= n < YearStart(y + 1)
  {
    var guess := 1970 + 400 * n / 146097;
    GuessIsClose(n);
    if n < YearStart(guess) then guess - 1
    else if n < YearStart(guess + 1) then guess
    else guess + 1
  }

  lemma GuessIsClose(n: int)
    ensures YearStart(1970 + 400 * n / 146097 - 1) <= n < YearStart(1970 + 400 * n / 146097 + 2)
  {
    var g := 400 * n / 146097;
    YearStartIsDirect(1970 + g - 1);
    YearStartIsDirect(1970 + g + 2);
    assert 146097 * g <= 400 * n < 146097 * (g + 1);
  }

  lemma YearOfUnique(n: int, y: int)
    requires YearStart(y) <= n < YearStart(y + 1)
    ensures YearOf(n) == y
  {
    var z := YearOf(n);
    if z < y {
      YearsGrow(z + 1, y);
    } else if y < z {
      YearsGrow(y + 1, z);
    }
  }

  /** The month of the `k`-th day of the year, searching from month `m` on. */
  function MonthOf(y: int, k: int, m: int): (r: int)
    requires 1 <= m <= 12 && DaysBefore(y, m) <= k < DaysInYear(y)
    ensures m <= r <= 12 && DaysBefore(y, r) <= k < DaysBefore(y, r + 1)
    decreases 12 - m
  {
    if k < DaysBefore(y, m + 1) then m else MonthOf(y, k, m + 1)
  }

  lemma MonthLength(y: int, m: int)
    requires 1 <= m <= 12
    ensures DaysBefore(y, m + 1) == DaysBefore(y, m) + DaysInMonth(y, m)
  {
  }

  function DateOf(n: int): (d: Date)
    ensures Valid(d) && DayNumber(d) == n
  {
    var y := YearOf(n);
    YearLength(y);
    var k := n - YearStart(y);
    var m := MonthOf(y, k, 1);
    MonthLength(y, m);
    Date(y, m, k - DaysBefore(y, m) + 1)
  }

  lemma InItsYear(d: Date)
    requires Valid(d)
    ensures YearStart(d.year) <= DayNumber(d) < YearStart(d.year + 1)
    ensures YearOf(DayNumber(d)) == d.year
  {
    MonthLength(d.year, d.month);
    YearLength(d.year);
    YearOfUnique(DayNumber(d), d.year);
  }

  /** Each day number has one date. */
  lemma NumberingIsInjective(a: Date, b: Date)
    requires Valid(a) && Valid(b) && DayNumber(a) == DayNumber(b)
    ensures a == b
  {
    InItsYear(a);
    InItsYear(b);
    MonthLength(a.year, a.month);
    MonthLength(b.year, b.month);
  }

  /** Monday is 0, Sunday is 6. */
  function Weekday(n: int): int {
    (n + 3) % 7
  }
}
