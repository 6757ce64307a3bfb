/**
 Julian Day arithmetic, compared with the calendar itself. The doubles of the original are exact
 rationals here, and every conversion to an integer truncates towards zero as the original's does.
 */
module JulianDay {
  import opened Civil

  /** Conversion of a double to an integer. */
  function Trunc(x: real): int {
    if x >= 0.0 then x.Floor else -(-x).Floor
  }

  /** Integer division. */
  function Div(a: int, b: int): int
    requires b > 0
  {
    if a >= 0 then a / b else -(-a / b)
  }

  function LRound(x: real): int {
    if x >= 0.0 then (x + 0.5).Floor else -(-x + 0.5).Floor
  }

  /** January and February count as months 13 and 14 of the year before. */
  function MarchYear(year: int, month: int): int {
    if month <= 2 then year - 1 else year
  }

  function MarchMonth(month: int): int {
    if month <= 2 then month + 12 else month
  }

  function GetJD(year: int, month: int, day: int): real {
    var y, m := MarchYear(year, month), MarchMonth(month);
    var a := Div(y, 100);
    var b := 2 - a + Div(a, 4);
    (Trunc(365.25 * (y + 4716) as real) + Trunc(30.6001 * (m + 1) as real) + day + b) as real - 1524.5
  }

  function CalcDateFromJD(jd: real): Date {
    var z := LRound(jd);
    DateFromShifted(WithoutCenturies(z) + 1524, jd + 0.5 - z as real)
  }

  /** The day as the Julian calendar would number it: the skipped leap days are put back. */
  function WithoutCenturies(z: int): int {
    if z < 2299161 then z
    else
      var alpha := Trunc((z as real - 1867216.25) / 36524.25);
      z + 1 + alpha - Div(alpha, 4)
  }

  function DateFromShifted(b: int, f: real): Date {
    var c := Trunc((b as real - 122.1) / 365.25);
    var d := Trunc(365.25 * c as real);
    var e := Trunc((b - d) as real / 30.6001);
    var day := Trunc((b - d - Trunc(30.6001 * e as real)) as real + f);
    var month := if e < 14 then e - 1 else e - 13;
    Date(if month > 2 then c - 4716 else c - 4715, month, day)
  }

  function ModifiedJulianDate(month: int, day: int, year: int): real {
    var y, m := MarchYear(year, month), MarchMonth(month);
    var a := 10000 * y + 100 * m + day;
    var b := if a as real <= 15821004.1 then -2 * Div(y + 4716, 4) - 1179
             else Div(y, 400) - Div(y, 100) + Div(y, 4);
    (365 * y - 679004 + b + Trunc(30.6001 * (m + 1) as real) + day) as real
  }

  /** The Julian day of a moment, from its date and its seconds since midnight. */
  function JulianDayOf(date: Date, seconds: int): real {
    var d1 := date.day as real + seconds as real / 86400.0;
    var y, m := MarchYear(date.year, date.month), MarchMonth(date.month);
    var k1 := Div(y, 100);
    var l1 := 2 - k1 + Div(k1, 4);
    (Trunc(365.25 * (y + 4716) as real) + Trunc(30.6001 * (m + 1) as real)) as real + d1 + l1 as real - 1524.5
  }

  // ---------------------------------------------------------------- dates to Julian Days

  /** The integer part of the Julian Day at noon of day 0. */
  const NoonOfDay0 := 2440588

  /** The first day of the Gregorian calendar. */
  const Reform := Date(1582, 10, 15)

  predicate Gregorian(d: Date) {
    Valid(d) && DayNumber(d) >= DayNumber(Reform)
  }

  lemma QuarterYears(c: int)
    requires c >= 0
    ensures Trunc(365.25 * c as real) == 1461 * c / 4
  {
    var q := 1461 * c / 4;
    assert 4 * q <= 1461 * c < 4 * q + 4;
    assert q as real <= 365.25 * c as real < q as real + 1.0;
  }

  /** Days before a month, counted from the first of March, offset by 122. */
  function MonthTerm(m: int): int
    requires 3 <= m <= 14
  {
    [122, 153, 183, 214, 244, 275, 306, 336, 367, 397, 428, 459][m - 3]
  }

  lemma MonthTermIs(m: int)
    requires 3 <= m <= 14
    ensures Trunc(30.6001 * (m + 1) as real) == MonthTerm(m)
  {
  }

  /** The Julian Day of day `t` of year `y`, with the year starting in March. */
  function MarchNumber(y: int, t: int): int {
    1461 * (y + 4716) / 4 - y / 100 + y / 400 + t - 1522
  }

  /** The day number, with the year starting in March. */
  lemma MarchForm(d: Date)
    requires Valid(d)
    ensures var y, m := MarchYear(d.year, d.month), MarchMonth(d.month);
            DayNumber(d) + NoonOfDay0 == MarchNumber(y, MonthTerm(m) + d.day)
  {
    var y := MarchYear(d.year, d.month);
    assert 1461 * (y + 4716) / 4 == 365 * (y + 4716) + y / 4 + 1179;
    YearStartIsDirect(d.year);
    if d.month > 2 {
      DirectLength(d.year);
    }
  }

  /** The Julian Day counts the days of the calendar. */
  lemma GetJDCountsDays(d: Date)
    requires Valid(d) && d.year >= 1
    ensures GetJD(d.year, d.month, d.day) == (DayNumber(d) + NoonOfDay0) as real - 0.5
  {
    var y, m := MarchYear(d.year, d.month), MarchMonth(d.month);
    QuarterYears(y + 4716);
    MonthTermIs(m);
    MarchForm(d);
    assert y / 100 / 4 == y / 400;
  }

  lemma GregorianYear(d: Date)
    requires Gregorian(d)
    ensures d.year >= 1582
  {
    InItsYear(d);
    if d.year < 1582 {
      YearsGrow(d.year + 1, 1582);
    }
  }

  /** Consecutive days have consecutive Julian Days. */
  lemma NextDayNextJD(d: Date)
    requires Valid(d) && d.year >= 1
    ensures GetJD(Next(d).year, Next(d).month, Next(d).day) == GetJD(d.year, d.month, d.day) + 1.0
  {
    NextIsNext(d);
    GetJDCountsDays(d);
    GetJDCountsDays(Next(d));
  }

  lemma ModifiedIsShifted(d: Date)
    requires Gregorian(d)
    ensures ModifiedJulianDate(d.month, d.day, d.year) == GetJD(d.year, d.month, d.day) - 2400000.5
  {
    GregorianYear(d);
    var y, m := MarchYear(d.year, d.month), MarchMonth(d.month);
    AfterReform(d);
    QuarterYears(y + 4716);
    assert 1461 * (y + 4716) / 4 == 365 * (y + 4716) + y / 4 + 1179;
    assert y / 100 / 4 == y / 400;
  }

  /** The digits of a Gregorian date lie above the last day of the Julian calendar. */
  lemma AfterReform(d: Date)
    requires Gregorian(d)
    ensures 10000 * MarchYear(d.year, d.month) + 100 * MarchMonth(d.month) + d.day >= 15821015
  {
    GregorianYear(d);
  }

  lemma MomentIsJDPlusFraction(d: Date, seconds: int)
    requires Valid(d) && 0 <= seconds < 86400
    ensures JulianDayOf(d, seconds) == GetJD(d.year, d.month, d.day) + seconds as real / 86400.0
  {
  }

  // ---------------------------------------------------------------- Julian Days to dates

  lemma RoundingFindsTheDay(jd: real, n: int)
    requires n >= 1 && n as real - 0.5 <= jd < n as real + 0.5
    ensures LRound(jd) == n && 0.0 <= jd + 0.5 - n as real < 1.0
  {
  }

  /** Four times the days since March of the year 400, between the multiples of a century's length. */
  lemma CenturyBounds(y: int, t: int)
    requires 123 <= t <= 488 && (t == 488 ==> IsLeap(y + 1))
    ensures 146097 * (y / 100 - 4) <= 4 * MarchNumber(y, t) - 7468865 < 146097 * (y / 100 - 3)
  {
    var c, r := y / 100, y % 100;
    assert 1461 * (y + 4716) / 4 == 365 * (y + 4716) + y / 4 + 1179;
    assert y / 400 == c / 4;
    assert y / 4 == 25 * c + r / 4;
    LastCenturyDay(y, t);
  }

  lemma CenturyIsLeap(c: int)
    ensures IsLeap(100 * (c + 1)) <==> c % 4 == 3
  {
  }

  lemma LastCenturyDay(y: int, t: int)
    requires 123 <= t <= 488 && (t == 488 ==> IsLeap(y + 1))
    ensures 365 * (y % 100) + y % 100 / 4 + (t - 123) <= 36523 + if y / 100 % 4 == 3 then 1 else 0
  {
    var c, r := y / 100, y % 100;
    assert y == 100 * c + r;
    if r == 99 {
      CenturyIsLeap(c);
    } else {
      assert r <= 98 && r / 4 <= 24;
    }
  }

  lemma QuotientIs(z: int, e: int)
    requires e >= 0 && 146097 * e <= 4 * z - 7468865 < 146097 * (e + 1)
    ensures Trunc((z as real - 1867216.25) / 36524.25) == e
  {
    var x := z as real - 1867216.25;
    assert 36524.25 * e as real <= x < 36524.25 * (e + 1) as real;
  }

  /** The centuries since March of the year 400, from the day alone. */
  lemma CenturyFound(y: int, t: int)
    requires y >= 400 && 123 <= t <= 488 && (t == 488 ==> IsLeap(y + 1))
    ensures Trunc((MarchNumber(y, t) as real - 1867216.25) / 36524.25) == y / 100 - 4
  {
    CenturyBounds(y, t);
    QuotientIs(MarchNumber(y, t), y / 100 - 4);
  }

  lemma YearFound(c: int, t: int, b: int)
    requires c >= 1 && 123 <= t <= 488 && (t == 488 ==> c % 4 == 3)
    requires b == 1461 * c / 4 + t
    ensures Trunc((b as real - 122.1) / 365.25) == c
  {
    var q, p := c / 4, c % 4;
    assert 1461 * c / 4 == 1461 * q + 365 * p;
    assert b as real - 122.1 >= 365.25 * c as real;
    assert b as real - 122.1 < 365.25 * (c + 1) as real;
  }

  lemma MonthFound(m: int, day: int)
    requires 3 <= m <= 14 && 1 <= day <= 31
    requires if m < 14 then MonthTerm(m) + day <= MonthTerm(m + 1) else day <= 29
    ensures Trunc((MonthTerm(m) + day) as real / 30.6001) == m + 1
  {
    var x := (MonthTerm(m) + day) as real;
    assert 30.6001 * (m + 1) as real <= x < 30.6001 * (m + 2) as real;
  }

  /** Where a date lies in a year that starts in March. */
  lemma MarchDay(d: Date)
    requires Valid(d)
    ensures var y, m, t := MarchYear(d.year, d.month), MarchMonth(d.month), MonthTerm(MarchMonth(d.month)) + d.day;
            && 123 <= t <= 488
            && (t == 488 ==> IsLeap(y + 1) && (y + 4716) % 4 == 3)
            && (if m < 14 then t <= MonthTerm(m + 1) else d.day <= 29)
            && d == Date(if m > 12 then y + 1 else y, if m > 12 then m - 12 else m, d.day)
  {
  }

  lemma Shifted(y: int, t: int)
    requires y >= 400 && 123 <= t <= 488 && (t == 488 ==> IsLeap(y + 1)) && MarchNumber(y, t) >= 2299161
    ensures WithoutCenturies(MarchNumber(y, t)) + 1524 == 1461 * (y + 4716) / 4 + t
  {
    CenturyFound(y, t);
    assert Div(y / 100 - 4, 4) == y / 400 - 1;
  }

  /** Day `day` of month `m` of year `c`, counting years from 4716 BC and from March. */
  lemma DateFound(c: int, m: int, day: int, f: real)
    requires c >= 1 && 3 <= m <= 14 && 1 <= day <= 31 && 0.0 <= f < 1.0
    requires if m < 14 then MonthTerm(m) + day <= MonthTerm(m + 1) else day <= 29
    requires MonthTerm(m) + day == 488 ==> c % 4 == 3
    ensures DateFromShifted(1461 * c / 4 + MonthTerm(m) + day, f)
         == Date(if m > 12 then c - 4715 else c - 4716, if m > 12 then m - 12 else m, day)
  {
    YearFound(c, MonthTerm(m) + day, 1461 * c / 4 + MonthTerm(m) + day);
    QuarterYears(c);
    MonthFound(m, day);
    MonthTermIs(m);
    assert Trunc(day as real + f) == day;
  }

  lemma MarchDateFound(y: int, m: int, day: int, f: real)
    requires y >= 400 && 3 <= m <= 14 && 1 <= day <= 31 && 0.0 <= f < 1.0
    requires if m < 14 then MonthTerm(m) + day <= MonthTerm(m + 1) else day <= 29
    requires MonthTerm(m) + day == 488 ==> IsLeap(y + 1) && (y + 4716) % 4 == 3
    requires MarchNumber(y, MonthTerm(m) + day) >= 2299161
    ensures DateFromShifted(WithoutCenturies(MarchNumber(y, MonthTerm(m) + day)) + 1524, f)
         == Date(if m > 12 then y + 1 else y, if m > 12 then m - 12 else m, day)
  {
    Shifted(y, MonthTerm(m) + day);
    DateFound(y + 4716, m, day, f);
  }

  lemma ReformNumber()
    ensures DayNumber(Reform) + NoonOfDay0 == 2299161
  {
    MarchForm(Reform);
  }

  lemma DayFound(d: Date, f: real)
    requires Gregorian(d) && 0.0 <= f < 1.0
    ensures DateFromShifted(WithoutCenturies(DayNumber(d) + NoonOfDay0) + 1524, f) == d
  {
    ReformNumber();
    GregorianYear(d);
    MarchForm(d);
    MarchDay(d);
    MarchDateFound(MarchYear(d.year, d.month), MarchMonth(d.month), d.day, f);
  }

  /** Every moment of a Gregorian day decodes to that day's date. */
  lemma DateFromJD(jd: real, d: Date)
    requires Gregorian(d)
    requires GetJD(d.year, d.month, d.day) <= jd < GetJD(d.year, d.month, d.day) + 1.0
    ensures CalcDateFromJD(jd) == d
  {
    ReformNumber();
    GregorianYear(d);
    GetJDCountsDays(d);
    var z := DayNumber(d) + NoonOfDay0;
    RoundingFindsTheDay(jd, z);
    DayFound(d, jd + 0.5 - z as real);
  }

  /** Encoding and decoding are inverse on all Gregorian dates. */
  lemma RoundTrip(d: Date)
    requires Gregorian(d)
    ensures CalcDateFromJD(GetJD(d.year, d.month, d.day)) == d
  {
    DateFromJD(GetJD(d.year, d.month, d.day), d);
  }

  /** Every Julian Day from the reform on decodes to a valid date, whose Julian Day is the midnight
      before it. */
  lemma EveryJDDecodes(jd: real)
    requires jd >= GetJD(1582, 10, 15)
    ensures var d := CalcDateFromJD(jd);
            && Gregorian(d)
            && GetJD(d.year, d.month, d.day) <= jd < GetJD(d.year, d.month, d.day) + 1.0
  {
    var n := (jd + 0.5).Floor - NoonOfDay0;
    GetJDCountsDays(Reform);
    var d := DateOf(n);
    GregorianYear(d);
    GetJDCountsDays(d);
    DateFromJD(jd, d);
  }
}
