/** Week numbers and month ends of a date, against the rules of ISO 8601. */
module WeekNumber {
  import opened Civil
  import opened Wrappers

  datatype Error = InvalidDate | InternalError

  /** The first year a date can have. */
  const MinYear := -32767

  // ---------------------------------------------------------------- the reference

  /** The Thursday of the week, which starts on Monday, that contains day `n`. */
  function ThursdayOf(n: int): int {
    n - Weekday(n) + 3
  }

  /** Weeks belong to the year of their Thursday, and are counted from its first Thursday. */
  function IsoYear(n: int): int {
    YearOf(ThursdayOf(n))
  }

  function IsoWeek(n: int): int {
    Week(ThursdayOf(n))
  }

  function Week(t: int): int {
    (t - YearStart(YearOf(t))) / 7 + 1
  }

  lemma ThursdayOfNextDay(n: int)
    ensures ThursdayOf(n + 1) == ThursdayOf(n) + if Weekday(n) == 6 then 7 else 0
  {
  }

  /** From Monday to Sunday the week stays the same. On the next Monday it is one more, or the first
      of the next year. */
  lemma IsoWeekSteps(n: int)
    ensures Weekday(n) != 6 ==> IsoWeek(n + 1) == IsoWeek(n) && IsoYear(n + 1) == IsoYear(n)
    ensures Weekday(n) == 6 ==>
              || (IsoYear(n + 1) == IsoYear(n) && IsoWeek(n + 1) == IsoWeek(n) + 1)
              || (IsoYear(n + 1) == IsoYear(n) + 1 && IsoWeek(n + 1) == 1)
  {
    ThursdayOfNextDay(n);
    if Weekday(n) == 6 {
      InSameOrNextYear(ThursdayOf(n));
    }
  }

  lemma InSameOrNextYear(t: int)
    ensures || (YearOf(t + 7) == YearOf(t) && Week(t + 7) == Week(t) + 1)
            || (YearOf(t + 7) == YearOf(t) + 1 && Week(t + 7) == 1)
  {
    var y := YearOf(t);
    if t + 7 < YearStart(y + 1) {
      YearOfUnique(t + 7, y);
    } else {
      YearLength(y + 1);
      YearOfUnique(t + 7, y + 1);
    }
  }

  /** The first week is the one with the fourth of January. */
  lemma FourthOfJanuary(y: int)
    ensures IsoYear(YearStart(y) + 3) == y && IsoWeek(YearStart(y) + 3) == 1
  {
    FourthInFirstWeek(YearStart(y));
    YearLength(y);
    YearOfUnique(ThursdayOf(YearStart(y) + 3), y);
  }

  lemma FourthInFirstWeek(first: int)
    ensures first <= ThursdayOf(first + 3) <= first + 6
  {
  }

  // ---------------------------------------------------------------- the code

  function JulianDay(n: int): int {
    n + 2440588
  }

  /** The remainder of a division that truncates towards zero. */
  function Rem(a: int, b: int): int
    requires b > 0
  {
    if a >= 0 then a % b else -(-a % b)
  }

  function Unsigned64(x: int): int {
    x % 0x1_0000_0000_0000_0000
  }

  function Signed32(x: int): int {
    (x + 0x8000_0000) % 0x1_0000_0000 - 0x8000_0000
  }

  /** The weekday of the day `first`, with Thursday as 6 and Friday as 0. */
  function DayCode(first: int): int {
    Unsigned64(Rem(JulianDay(first) + 3, 7))
  }

  function RawWeek(n: int, first: int): int {
    Unsigned64(JulianDay(n) + DayCode(first) - JulianDay(first) + 4) / 7
  }

  function WeekNumber(d: Date): Result<int, Error>
    requires Valid(d)
  {
    var n, first := DayNumber(d), YearStart(d.year);
    Corrected(d.year, DayCode(first), RawWeek(n, first), RawWeek(n, YearStart(d.year - 1)))
  }

  /** The corrections to a week counted from the start of the year. */
  function Corrected(year: int, day: int, week: int, weekFromYearBefore: int): Result<int, Error> {
    if 1 <= week <= 52 then Success(week)
    else if week == 53 then
      if day == 6 || (day == 5 && IsLeap(year)) then Success(week) else Success(1)
    else if week == 0 then
      if year - 1 < MinYear then Failure(InvalidDate) else Success(Signed32(weekFromYearBefore))
    else Failure(InternalError)
  }

  function DayOfYear(d: Date): int
    requires Valid(d)
  {
    DayNumber(d) - DayNumber(Date(d.year, 1, 1)) + 1
  }

  /** One day before the first of the next month. */
  function EndOfMonth(d: Date): Date
    requires Valid(d)
  {
    DateOf(DayNumber(if d.month < 12 then Date(d.year, d.month + 1, 1) else Date(d.year + 1, 1, 1)) - 1)
  }

  // ---------------------------------------------------------------- the code against the reference

  /** The remainder in `DayCode` is a weekday: true of every year from -4712 on, and of the
      earlier ones that start on a Friday. */
  predicate CodedRight(first: int) {
    JulianDay(first) + 3 >= 0 || Weekday(first) == 4
  }

  /** The weekday code, when the division gives the true remainder. */
  function TrueCode(first: int): int {
    (Weekday(first) + 3) % 7
  }

  lemma CodeIsRemainder(first: int)
    ensures (JulianDay(first) + 3) % 7 == TrueCode(first)
    ensures TrueCode(first) == 0 <==> Weekday(first) == 4
  {
  }

  lemma DayCodeIs(first: int)
    ensures DayCode(first) == Unsigned64(if CodedRight(first) then TrueCode(first) else TrueCode(first) - 7)
  {
    CodeIsRemainder(first);
    RemIs(JulianDay(first) + 3);
  }

  lemma RemIs(a: int)
    ensures Rem(a, 7) == if a >= 0 || a % 7 == 0 then a % 7 else a % 7 - 7
  {
  }

  /** The number of the week that contains the day `k` days after `first`. */
  function WeekFrom(k: int, first: int): int {
    (k + TrueCode(first) + 4) / 7
  }

  /** A year that is coded wrong loses a week, and its first days wrap around. */
  lemma RawWeekIs(k: int, first: int)
    requires 0 <= k < 1000
    ensures CodedRight(first) ==> RawWeek(first + k, first) == WeekFrom(k, first)
    ensures !CodedRight(first) && WeekFrom(k, first) >= 1 ==> RawWeek(first + k, first) == WeekFrom(k, first) - 1
    ensures !CodedRight(first) && WeekFrom(k, first) == 0 ==> RawWeek(first + k, first) > 1000
  {
    var code := if CodedRight(first) then TrueCode(first) else TrueCode(first) - 7;
    DayCodeIs(first);
    UnsignedSum(k + 4, code);
    assert JulianDay(first + k) - JulianDay(first) == k;
    WrappedWeek(k, code);
  }

  lemma WrappedWeek(k: int, code: int)
    requires 0 <= k < 1000 && -7 <= code < 7
    ensures k + code + 4 >= 0 ==> Unsigned64(k + 4 + code) / 7 == (k + code + 4) / 7
    ensures k + code + 4 < 0 ==> Unsigned64(k + 4 + code) / 7 > 1000
  {
  }

  lemma UnsignedSum(a: int, b: int)
    ensures Unsigned64(a + Unsigned64(b)) == Unsigned64(a + b)
  {
  }

  /** Weeks counted from the start of a year of `length` days: day `k` falls in the year before, in
      this year or in the next. */
  lemma WeekFromIs(k: int, first: int, length: int)
    requires 365 <= length <= 366 && 0 <= k < length
    ensures var week, w, t := WeekFrom(k, first), Weekday(first), ThursdayOf(first + k) - first;
            && 0 <= week <= 53 && -7 < t < length + 7
            && week == (t + 7) / 7
            && (week == 53 ==> t >= 364 && (t < length <==> w == 3 || (w == 2 && length == 366)))
            && (week <= 52 ==> t < 364)
  {
    WeekdayLater(first, k);
    ThursdayInWeek(k, Weekday(first));
    LastThursday(k, Weekday(first), length);
  }

  /** The Thursday of day `k`, counted from a day that is `w` days after a Monday. */
  function Thursday(k: int, w: int): int {
    k - (w + k) % 7 + 3
  }

  lemma ThursdayInWeek(k: int, w: int)
    requires 0 <= w < 7 && 0 <= k
    ensures (k + (w + 3) % 7 + 4) / 7 == (Thursday(k, w) + 7) / 7 && k - 3 <= Thursday(k, w) <= k + 3
  {
    var q, r := (w + k) / 7, (w + k) % 7;
    assert w + k == 7 * q + r;
    assert Thursday(k, w) == 7 * q - w + 3;
    assert (w + 3) % 7 == if w < 4 then w + 3 else w - 4;
    if w < 4 {
      assert (k + (w + 3) % 7 + 4) / 7 == q + 1 && (Thursday(k, w) + 7) / 7 == q + 1;
    } else {
      assert (k + (w + 3) % 7 + 4) / 7 == q && (Thursday(k, w) + 7) / 7 == q;
    }
  }

  /** A Thursday after the first 52 weeks lies in the year only if the year starts on it, or on the day
      before in a leap year. */
  lemma LastThursday(k: int, w: int, length: int)
    requires 0 <= w < 7 && 0 <= k < length && 365 <= length <= 366
    ensures (Thursday(k, w) + 7) / 7 <= 53
    ensures Thursday(k, w) >= 364 ==> (Thursday(k, w) < length <==> w == 3 || (w == 2 && length == 366))
  {
    var q := (w + k) / 7;
    assert Thursday(k, w) == 7 * q - w + 3;
  }

  lemma WeekdayLater(a: int, k: int)
    ensures Weekday(a + k) == (Weekday(a) + k) % 7
  {
  }

  /** A day of year `y` or of one beside it, counted from the start of year `y`. */
  lemma YearOfNeighbour(y: int, t: int)
    requires -DaysInYear(y - 1) <= t < DaysInYear(y) + 365
    ensures YearOf(YearStart(y) + t) == if t < 0 then y - 1 else if t < DaysInYear(y) then y else y + 1
    ensures Week(YearStart(y) + t) == WeekOfThursday(y, t)
  {
    YearLength(y);
    YearLength(y - 1);
    YearLength(y + 1);
    YearOfUnique(YearStart(y) + t, if t < 0 then y - 1 else if t < DaysInYear(y) then y else y + 1);
  }

  lemma ThursdayIsNear(n: int)
    ensures n - 3 <= ThursdayOf(n) <= n + 3
  {
  }

  /** The year of a day's Thursday is found by comparing it with the ends of the day's own year. */
  lemma IsoYearIs(d: Date)
    requires Valid(d)
    ensures var y, t := d.year, ThursdayOf(DayNumber(d)) - YearStart(d.year);
            && IsoYear(DayNumber(d)) == (if t < 0 then y - 1 else if t < DaysInYear(y) then y else y + 1)
            && IsoWeek(DayNumber(d)) == WeekOfThursday(y, t)
  {
    InItsYear(d);
    YearLength(d.year);
    ThursdayIsNear(DayNumber(d));
    YearOfNeighbour(d.year, ThursdayOf(DayNumber(d)) - YearStart(d.year));
  }

  lemma IsoWeekRange(n: int)
    ensures 1 <= IsoWeek(n) <= 53
  {
    YearLength(IsoYear(n));
  }

  /** When the code is right: the date's own year must be coded right, and so must the year before
      it (which must exist) when the date falls in that year's last week. */
  predicate CountsRight(d: Date)
    requires Valid(d)
  {
    CodedRight(YearStart(d.year))
    && (IsoYear(DayNumber(d)) == d.year - 1 ==> CodedRight(YearStart(d.year - 1)) && d.year > MinYear)
  }

  /** The corrections give the right week exactly when the years involved are coded right. Here `t` is
      the Thursday of the week, counted from the start of the year. */
  lemma CorrectedIsRight(year: int, t: int, right: bool, rightBefore: bool, code: int, raw: int, rawBefore: int)
    requires -7 < t < DaysInYear(year) + 7 && t < 371
    requires right ==> raw == (t + 7) / 7
    requires !right ==> if t >= 0 then raw == (t + 7) / 7 - 1 else raw > 1000
    requires rawBefore == (t + DaysInYear(year - 1) + 7) / 7 - if rightBefore then 0 else 1
    requires right && t >= 364 ==> (t < DaysInYear(year) <==> code == 6 || (code == 5 && IsLeap(year)))
    ensures Corrected(year, code, raw, rawBefore) == Success(WeekOfThursday(year, t))
        <==> right && (t < 0 ==> rightBefore && year > MinYear)
  {
    assert 0 <= rawBefore <= 107;
    assert Signed32(rawBefore) == rawBefore;
  }

  /** The week of the Thursday `t` days after the start of a year. */
  function WeekOfThursday(year: int, t: int): int {
    (if t < 0 then t + DaysInYear(year - 1) else if t < DaysInYear(year) then t else t - DaysInYear(year)) / 7 + 1
  }

  lemma WeekNumberIs(d: Date)
    requires Valid(d)
    ensures var first, before := YearStart(d.year), DaysInYear(d.year - 1);
            var k := DayNumber(d) - first;
            && 0 <= k < DaysInYear(d.year)
            && WeekNumber(d)
               == Corrected(d.year, DayCode(first), RawWeek(first + k, first), RawWeek(first + k, first - before))
  {
    InItsYear(d);
    YearLength(d.year);
    YearLength(d.year - 1);
  }

  lemma CountsRightIs(d: Date)
    requires Valid(d)
    ensures var first, before := YearStart(d.year), DaysInYear(d.year - 1);
            CountsRight(d) <==>
            CodedRight(first) && (ThursdayOf(DayNumber(d)) < first ==> CodedRight(first - before) && d.year > MinYear)
  {
    IsoYearIs(d);
    YearLength(d.year - 1);
  }

  lemma WeekNumberIsIsoIff(d: Date)
    requires Valid(d)
    ensures WeekNumber(d) == Success(IsoWeek(DayNumber(d))) <==> CountsRight(d)
  {
    WeekNumberIs(d);
    CountsRightIs(d);
    IsoYearIs(d);
    Counted(d.year, DayNumber(d) - YearStart(d.year), YearStart(d.year), DaysInYear(d.year - 1));
  }

  lemma LastWeekCode(year: int, k: int, first: int)
    requires CodedRight(first) && 0 <= k < DaysInYear(year) && WeekFrom(k, first) == 53
    ensures ThursdayOf(first + k) - first < DaysInYear(year)
        <==> DayCode(first) == 6 || (DayCode(first) == 5 && IsLeap(year))
  {
    WeekFromIs(k, first, DaysInYear(year));
    DayCodeIs(first);
    assert DayCode(first) == TrueCode(first);
  }

  lemma Counted(year: int, k: int, first: int, before: int)
    requires before == DaysInYear(year - 1) && 0 <= k < DaysInYear(year)
    ensures var t := ThursdayOf(first + k) - first;
            Corrected(year, DayCode(first), RawWeek(first + k, first), RawWeek(first + k, first - before))
              == Success(WeekOfThursday(year, t))
            <==> CodedRight(first) && (t < 0 ==> CodedRight(first - before) && year > MinYear)
  {
    var t := ThursdayOf(first + k) - first;
    WeekFromIs(k, first, DaysInYear(year));
    FromYearBefore(k, first, before);
    RawWeekIs(k, first);
    RawWeekIs(k + before, first - before);
    if CodedRight(first) && t >= 364 {
      LastWeekCode(year, k, first);
    }
    CorrectedIsRight(year, t, CodedRight(first), CodedRight(first - before), DayCode(first),
                     RawWeek(first + k, first), RawWeek(first + k, first - before));
  }

  /** The same week, counted from the start of the year before. */
  lemma FromYearBefore(k: int, first: int, before: int)
    requires 365 <= before <= 366 && 0 <= k < 400
    ensures var t := ThursdayOf(first + k) - first;
            WeekFrom(k + before, first - before) == (t + before + 7) / 7
  {
    WeekdayLater(first - before, k + before);
    var w := Weekday(first - before);
    assert ThursdayOf(first + k) - first + before == k + before - (w + k + before) % 7 + 3;
  }

  lemma EnoughYears(y: int)
    ensures JulianDay(YearStart(y)) + 3 >= 0 <==> y >= -4712
  {
    YearStartIsDirect(y);
  }

  /** From the year -4711 on, the week number is the ISO week, from 1 to 53, and the internal error cannot
      happen. */
  lemma WeekNumberIsIso(d: Date)
    requires Valid(d) && d.year >= -4711
    ensures WeekNumber(d) == Success(IsoWeek(DayNumber(d)))
    ensures 1 <= IsoWeek(DayNumber(d)) <= 53
  {
    EnoughYears(d.year);
    EnoughYears(d.year - 1);
    WeekNumberIsIsoIff(d);
    IsoWeekRange(DayNumber(d));
  }

  /** The first of January in any year before -4712 that does not start on a Friday shows the failure. */
  lemma TooEarlyForWeekNumber(y: int)
    requires y < -4712 && Weekday(YearStart(y)) != 4
    ensures WeekNumber(Date(y, 1, 1)) != Success(IsoWeek(DayNumber(Date(y, 1, 1))))
  {
    EnoughYears(y);
    WeekNumberIsIsoIff(Date(y, 1, 1));
  }

  /** The end of the month is the last date of the same month. */
  lemma EndOfMonthIsLast(d: Date)
    requires Valid(d)
    ensures EndOfMonth(d) == Date(d.year, d.month, DaysInMonth(d.year, d.month))
    ensures Next(EndOfMonth(d)).month != d.month && DayOfYear(d) <= DayOfYear(EndOfMonth(d))
  {
    var last := Date(d.year, d.month, DaysInMonth(d.year, d.month));
    NextIsNext(last);
    NumberingIsInjective(EndOfMonth(d), last);
  }

  lemma DayOfYearIs(d: Date)
    requires Valid(d)
    ensures DayOfYear(d) == DaysBefore(d.year, d.month) + d.day && 1 <= DayOfYear(d) <= DaysInYear(d.year)
    ensures DayOfYear(d) == DaysInYear(d.year) <==> d.month == 12 && d.day == 31
  {
    MonthLength(d.year, d.month);
  }

  lemma NextInYear(d: Date)
    requires Valid(d)
    ensures DaysBefore(Next(d).year, Next(d).month) + Next(d).day
         == if d.month == 12 && d.day == 31 then 1 else DaysBefore(d.year, d.month) + d.day + 1
  {
    if d.day == DaysInMonth(d.year, d.month) {
      MonthLength(d.year, d.month);
    }
  }

  /** The day of the year counts from 1 on the first of January and is the year's length on its last day. */
  lemma DayOfYearCounts(d: Date)
    requires Valid(d)
    ensures 1 <= DayOfYear(d) <= DaysInYear(d.year)
    ensures DayOfYear(Next(d)) == if DayOfYear(d) == DaysInYear(d.year) then 1 else DayOfYear(d) + 1
  {
    NextIsNext(d);
    DayOfYearIs(d);
    DayOfYearIs(Next(d));
    NextInYear(d);
  }
}
