/** The yearly rules of a POSIX time zone string. */
module TzRuleForm {

  /** A day in each year, and a time of that day in seconds. `Julian` counts from 1 and leaves out
      the 29th of February, `DayOfYear` counts from 0, and week 5 of a month is its last. */
  datatype Rule =
    | Off(time: int)
    | Julian(n: int, time: int)
    | MonthWeek(month: int, week: int, weekday: int, time: int)
    | DayOfYear(n: int, time: int)

  predicate InRange(r: Rule) {
    match r
    case Off(_) => true
    case Julian(n, _) => 1 <= n <= 365
    case MonthWeek(m, n, wd, _) => 1 <= m <= 12 && 1 <= n <= 5 && 0 <= wd <= 6
    case DayOfYear(n, _) => 0 <= n <= 365
  }
}

/** The instants that yearly rules stand for. */
module TzRule {
  import opened Civil
  import opened Common
  import opened Wrappers
  import opened TimeZone
  import opened TzRuleForm

  /** Sunday is 0. */
  function DayOfWeek(n: int): int {
    (n + 4) % 7
  }

  function RuleDay(r: Rule, y: int): int
    requires InRange(r) && !r.Off?
  {
    match r
    case Julian(n, _) => YearStart(y) - 1 + n + if IsLeap(y) && n > 59 then 1 else 0
    case MonthWeek(m, n, wd, _) =>
      if n == 5 then
        var last := DayNumber(Date(y, m, DaysInMonth(y, m)));
        last - (DayOfWeek(last) - wd) % 7
      else
        var first := DayNumber(Date(y, m, 1));
        first + (wd - DayOfWeek(first)) % 7 + 7 * (n - 1)
    case DayOfYear(n, _) => YearStart(y) + n
  }

  /** The local second at which the rule applies in year `y`. */
  function RuleTime(r: Rule, y: int): int
    requires InRange(r) && !r.Off?
  {
    SecondsPerDay * RuleDay(r, y) + r.time
  }

  // ---------------------------------------------------------------- the days that rules name

  /** A Julian rule names, in every year, the month and day that it names in any common year. */
  lemma JulianNamesOneDate(time: int, y: int, d: Date)
    requires Valid(d) && !IsLeap(d.year)
    ensures DateOf(RuleDay(Julian(DaysBefore(d.year, d.month) + d.day, time), y)) == d.(year := y)
  {
    var e := d.(year := y);
    assert RuleDay(Julian(DaysBefore(d.year, d.month) + d.day, time), y) == DayNumber(e);
    NumberingIsInjective(DateOf(DayNumber(e)), e);
  }

  /** The day lies in the month, has the weekday, and is the `week`-th such day or the last one. */
  lemma MonthWeekNamesItsDay(m: int, n: int, wd: int, time: int, y: int)
    requires 1 <= m <= 12 && 1 <= n <= 5 && 0 <= wd <= 6
    ensures var day := RuleDay(MonthWeek(m, n, wd, time), y);
            && DayOfWeek(day) == wd
            && DayNumber(Date(y, m, 1)) <= day <= DayNumber(Date(y, m, DaysInMonth(y, m)))
            && if n == 5 then day + 7 > DayNumber(Date(y, m, DaysInMonth(y, m)))
               else 7 * (n - 1) <= day - DayNumber(Date(y, m, 1)) < 7 * n
  {
    var first, last := DayNumber(Date(y, m, 1)), DayNumber(Date(y, m, DaysInMonth(y, m)));
    MonthSpan(y, m);
    if n == 5 {
      LastSuchDay(last, wd);
    } else {
      FirstSuchDay(first, wd, n);
    }
  }

  lemma MonthSpan(y: int, m: int)
    requires 1 <= m <= 12
    ensures 27 <= DayNumber(Date(y, m, DaysInMonth(y, m))) - DayNumber(Date(y, m, 1)) <= 30
  {
  }

  lemma FirstSuchDay(first: int, wd: int, n: int)
    requires 0 <= wd <= 6
    ensures DayOfWeek(first + (wd - DayOfWeek(first)) % 7 + 7 * (n - 1)) == wd
  {
    SevenApart(first + 4, wd - DayOfWeek(first), (wd - DayOfWeek(first)) % 7 + 7 * (n - 1));
  }

  lemma LastSuchDay(last: int, wd: int)
    requires 0 <= wd <= 6
    ensures DayOfWeek(last - (DayOfWeek(last) - wd) % 7) == wd
  {
    SevenApart(last + 4, wd - DayOfWeek(last), -((DayOfWeek(last) - wd) % 7));
  }

  /** Days by which two shifts differ in whole weeks lead to the same weekday. */
  lemma SevenApart(a: int, d: int, e: int)
    requires 0 <= a % 7 + d < 7 && (e - d) % 7 == 0
    ensures (a + e) % 7 == a % 7 + d
  {
    var q, k := a / 7, (e - d) / 7;
    assert a + e == 7 * (q + k) + (a % 7 + d);
  }

  // ---------------------------------------------------------------- zones with rules of this kind

  function GregorianYears(): Years {
    Years(y => SecondsPerDay * YearStart(y), t => YearOf(t / SecondsPerDay))
  }

  lemma GregorianIsOrderly()
    ensures Orderly(GregorianYears())
  {
    forall y ensures YearFollows(GregorianYears(), y) {
      YearLength(y);
    }
  }

  function ZoneOf(std: string, dst: string, offset: int, save: int, start: Rule, end: Rule): Zone
    requires InRange(start) && InRange(end)
  {
    Zone(std, dst, offset, save,
         if start.Off? || end.Off? then None else Some(Rules(y => RuleTime(start, y), y => RuleTime(end, y))),
         GregorianYears())
  }

  /** What the parser guarantees of the times in a zone. */
  predicate ParsedTimes(offset: int, save: int, start: Rule, end: Rule) {
    && -90000 < offset < 90000 && -180000 < save < 180000
    && 0 <= start.time < 90000 && 0 <= end.time < 90000
  }

  // ---------------------------------------------------------------- where in the year rules fall

  /** A year of either length. */
  function SomeYear(leap: bool): int {
    if leap then 2000 else 2001
  }

  /** The first and the last day of the year, counted from 0, on which the rule can fall. */
  function EarliestDay(r: Rule, leap: bool): int
    requires InRange(r) && !r.Off?
  {
    match r
    case Julian(n, _) => n - 1 + if leap && n > 59 then 1 else 0
    case MonthWeek(m, n, _, _) =>
      if n == 5 then DaysBefore(SomeYear(leap), m + 1) - 7 else DaysBefore(SomeYear(leap), m) + 7 * (n - 1)
    case DayOfYear(n, _) => n
  }

  function LatestDay(r: Rule, leap: bool): int
    requires InRange(r) && !r.Off?
  {
    EarliestDay(r, leap) + if r.MonthWeek? then 6 else 0
  }

  lemma SameLength(y: int, m: int)
    requires 1 <= m <= 13
    ensures DaysBefore(SomeYear(IsLeap(y)), m) == DaysBefore(y, m)
  {
  }

  lemma RuleDayWithin(r: Rule, y: int)
    requires InRange(r) && !r.Off?
    ensures EarliestDay(r, IsLeap(y)) <= RuleDay(r, y) - YearStart(y) <= LatestDay(r, IsLeap(y))
  {
    if r.MonthWeek? {
      SameLength(y, r.month);
      SameLength(y, r.month + 1);
      MonthLength(y, r.month);
    }
  }

  /** The seconds from the start of the year, in UTC, between which a rule applies whose clock is ahead
      of UTC by `offset`. */
  function Earliest(r: Rule, offset: int, leap: bool): int
    requires InRange(r) && !r.Off?
  {
    SecondsPerDay * EarliestDay(r, leap) + r.time - offset
  }

  function Latest(r: Rule, offset: int, leap: bool): int
    requires InRange(r) && !r.Off?
  {
    SecondsPerDay * LatestDay(r, leap) + r.time - offset
  }

  predicate StaysInside(r: Rule, offset: int, margin: int, leap: bool)
    requires InRange(r) && !r.Off?
  {
    && margin <= Earliest(r, offset, leap)
    && Latest(r, offset, leap) <= SecondsPerDay * (if leap then 366 else 365) - margin
  }

  /** In years of this kind both rules stay away from the ends of the year by the sum of the offsets, and
      from each other by the shift. */
  predicate Spaced(o: Order, offset: int, save: int, start: Rule, end: Rule, leap: bool)
    requires InRange(start) && InRange(end) && !start.Off? && !end.Off?
  {
    && StaysInside(start, offset, Abs(offset) + Abs(save), leap)
    && StaysInside(end, offset + save, Abs(offset) + Abs(save), leap)
    && match o
       case Northern => Latest(start, offset, leap) + Abs(save) <= Earliest(end, offset + save, leap)
       case Southern =>
         && Latest(end, offset + save, leap) + Abs(save) <= Earliest(start, offset, leap)
         && Latest(end, offset + save, leap) < Earliest(start, offset, leap)
  }

  /** Rules of any kind that are spaced make a zone whose conversions are right. */
  lemma SpacedSeparate(std: string, dst: string, offset: int, save: int, start: Rule, end: Rule, o: Order)
    requires InRange(start) && InRange(end) && !start.Off? && !end.Off?
    requires forall leap :: Spaced(o, offset, save, start, end, leap)
    ensures Separated(ZoneOf(std, dst, offset, save, start, end), o)
  {
    GregorianIsOrderly();
    var z := ZoneOf(std, dst, offset, save, start, end);
    forall y ensures YearSeparated(z, o, y) {
      assert Spaced(o, offset, save, start, end, IsLeap(y));
      SpacedInYear(z, start, end, o, y);
      WellInsideSeparates(z, o, y);
    }
  }

  lemma RuleTimeWithin(r: Rule, offset: int, margin: int, y: int)
    requires InRange(r) && !r.Off? && StaysInside(r, offset, margin, IsLeap(y))
    ensures var t := RuleTime(r, y) - offset;
            && SecondsPerDay * YearStart(y) + margin <= t <= SecondsPerDay * YearStart(y + 1) - margin
            && Earliest(r, offset, IsLeap(y)) <= t - SecondsPerDay * YearStart(y) <= Latest(r, offset, IsLeap(y))
  {
    RuleDayWithin(r, y);
    YearLength(y);
  }

  lemma SpacedInYear(z: Zone, start: Rule, end: Rule, o: Order, y: int)
    requires InRange(start) && InRange(end) && !start.Off? && !end.Off?
    requires Spaced(o, z.offset, z.save, start, end, IsLeap(y))
    requires z.rules.Some? && z.rules.value.start(y) == RuleTime(start, y) && z.rules.value.end(y) == RuleTime(end, y)
    ensures var begin, next := SecondsPerDay * YearStart(y), SecondsPerDay * YearStart(y + 1);
            var margin := Abs(z.offset) + Abs(z.save);
            begin + margin <= GetStart(z, y) <= next - margin && begin + margin <= GetEnd(z, y) <= next - margin
    ensures match o
            case Northern => GetStart(z, y) + Abs(z.save) <= GetEnd(z, y)
            case Southern => GetEnd(z, y) + Abs(z.save) <= GetStart(z, y) && GetEnd(z, y) < GetStart(z, y)
  {
    RuleTimeWithin(start, z.offset, Abs(z.offset) + Abs(z.save), y);
    RuleTimeWithin(end, z.offset + z.save, Abs(z.offset) + Abs(z.save), y);
  }

  /** A whole month lies between the two months. */
  predicate MonthBetween(m: int, n: int) {
    m + 2 <= n || n + 2 <= m
  }

  /** Any two month rules from February to November with a whole month between them are spaced, whatever
      offsets are stated. */
  lemma MonthRulesAreSpaced(offset: int, save: int, start: Rule, end: Rule, leap: bool)
    requires InRange(start) && InRange(end) && ParsedTimes(offset, save, start, end)
    requires start.MonthWeek? && 2 <= start.month <= 11 && end.MonthWeek? && 2 <= end.month <= 11
    requires MonthBetween(start.month, end.month)
    ensures Spaced(if start.month < end.month then Northern else Southern, offset, save, start, end, leap)
  {
    WithinMonth(start, leap);
    WithinMonth(end, leap);
    MonthsApart(leap, start.month, end.month);
  }

  lemma WithinMonth(r: Rule, leap: bool)
    requires InRange(r) && r.MonthWeek? && 2 <= r.month <= 11
    ensures DaysBefore(SomeYear(leap), r.month) <= EarliestDay(r, leap)
    ensures LatestDay(r, leap) < DaysBefore(SomeYear(leap), r.month + 1)
    ensures 31 <= EarliestDay(r, leap) && LatestDay(r, leap) < 334 + if leap then 1 else 0
  {
  }

  lemma MonthsApart(leap: bool, m: int, n: int)
    requires 2 <= m <= 11 && 2 <= n <= 11
    ensures m + 2 <= n ==> DaysBefore(SomeYear(leap), m + 1) + 28 <= DaysBefore(SomeYear(leap), n)
    ensures n + 2 <= m ==> DaysBefore(SomeYear(leap), n + 1) + 28 <= DaysBefore(SomeYear(leap), m)
  {
  }
}
