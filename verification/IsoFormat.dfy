/**
 ISO 8601 timestamps in basic and extended form: what the printers write and what the parser makes of
 any string. Times are whole seconds; the day numbers are those of the calendar.
 */
module IsoFormat {
  import opened Civil
  import opened Common
  import opened Text
  import opened Wrappers

  datatype LocalTime = LocalTime(date: Date, hour: int, minute: int, second: int)

  /** A local time, and by how many seconds it is ahead of UTC. */
  datatype LocalDateTime = LocalDateTime(local: LocalTime, offset: int)

  predicate ValidTime(t: LocalTime) {
    Valid(t.date) && 0 <= t.hour < 24 && 0 <= t.minute < 60 && 0 <= t.second < 60
  }

  function Seconds(t: LocalTime): int
    requires Valid(t.date)
  {
    SecondsPerDay * DayNumber(t.date) + t.hour * 3600 + t.minute * 60 + t.second
  }

  function Utc(t: LocalDateTime): int
    requires Valid(t.local.date)
  {
    Seconds(t.local) - t.offset
  }

  // ---------------------------------------------------------------- what is written

  function DigitOf(n: int): char {
    if 0 <= n < 10 then '0' + n as char else '?'
  }

  function Two(n: int): string {
    [DigitOf(n / 10), DigitOf(n % 10)]
  }

  function Separator(extended: bool, c: char): string {
    if extended then [c] else ""
  }

  function YearText(y: int): string {
    Two(y / 100) + Two(y % 100)
  }

  function DateText(d: Date, extended: bool): string {
    YearText(d.year) + (Separator(extended, '-') + (Two(d.month) + (Separator(extended, '-') + Two(d.day))))
  }

  function ClockText(t: LocalTime, extended: bool): string {
    Two(t.hour) + (Separator(extended, ':') + (Two(t.minute) + (Separator(extended, ':') + Two(t.second))))
  }

  function ZoneText(offset: int, extended: bool): string {
    if offset == 0 then "Z"
    else
      [if offset < 0 then '-' else '+'] +
      (Two(Abs(offset) / 3600) + (Separator(extended, ':') + Two(Abs(offset) % 3600 / 60)))
  }

  function TimeText(t: LocalTime, extended: bool): string {
    DateText(t.date, extended) + ("T" + ClockText(t, extended))
  }

  function IsoText(t: LocalDateTime, extended: bool): string {
    TimeText(t.local, extended) + ZoneText(t.offset, extended)
  }

  // ---------------------------------------------------------------- what is read

  /** A time in UTC or in unknown local time, no time at all, or an exception for a date that does not
      exist. */
  datatype Outcome = Time(seconds: int, isutc: bool) | NotATime | InvalidDate

  /** The character at an index; a zero ends the text. */
  function Peek(s: string, i: nat): char {
    if i < |s| then s[i] else 0 as char
  }

  predicate Ends(s: string, i: nat) {
    Peek(s, i) == 0 as char
  }

  /** The number that `n` digits from `i` on make. */
  function Number(s: string, i: nat, n: nat): Option<int> {
    if i + n <= |s| && DigitsFrom(s, i, i + n) then Some(ValueOf(s, i, i + n)) else None
  }

  /** A number of two digits within the limits. */
  function Limited(s: string, i: nat, low: int, high: int): Option<int> {
    match Number(s, i, 2)
    case None => None
    case Some(n) => if low <= n <= high then Some(n) else None
  }

  /** The index behind the separator, which only the extended form has. */
  function Skip(s: string, i: nat, extended: bool, c: char): Option<nat> {
    if !extended then Some(i) else if Peek(s, i) == c then Some(i + 1) else None
  }

  function LimitedAfter(s: string, i: nat, extended: bool, c: char, low: int, high: int): Option<(int, nat)> {
    match Skip(s, i, extended, c)
    case None => None
    case Some(j) =>
      match Limited(s, j, low, high)
      case None => None
      case Some(n) => Some((n, j + 2))
  }

  datatype DatePart = DatePart(date: Date, next: nat, extended: bool)

  function ReadDate(s: string): Option<DatePart> {
    match Number(s, 0, 4)
    case None => None
    case Some(year) =>
      if year < 1582 || year > 5000 then None else ReadMonthAndDay(s, year, Peek(s, 4) == '-')
  }

  /** The day may be missing in the extended form. */
  function ReadMonthAndDay(s: string, year: int, extended: bool): Option<DatePart> {
    match LimitedAfter(s, 4, extended, '-', 1, 12)
    case None => None
    case Some(m) =>
      if Ends(s, m.1) then (if extended then Some(DatePart(Date(year, m.0, 1), m.1, extended)) else None)
      else
        match LimitedAfter(s, m.1, extended, '-', 1, 31)
        case None => None
        case Some(d) => Some(DatePart(Date(year, m.0, d.0), d.1, extended))
  }

  predicate StartsZone(s: string, i: nat) {
    Peek(s, i) == 'Z' || Peek(s, i) == '+' || Peek(s, i) == '-'
  }

  predicate EndsClock(s: string, i: nat) {
    Ends(s, i) || StartsZone(s, i)
  }

  datatype ClockPart = ClockPart(hour: int, minute: int, second: int, next: nat)

  /** Minutes and seconds may be missing, and so may the T before the hours. */
  function ReadClock(s: string, i: nat, extended: bool): Option<ClockPart> {
    var j := if Peek(s, i) == 'T' then i + 1 else i;
    match Limited(s, j, 0, 23)
    case None => None
    case Some(h) => if EndsClock(s, j + 2) then Some(ClockPart(h, 0, 0, j + 2)) else ReadMinutes(s, j + 2, extended, h)
  }

  function ReadMinutes(s: string, i: nat, extended: bool, hour: int): Option<ClockPart> {
    match LimitedAfter(s, i, extended, ':', 0, 59)
    case None => None
    case Some(m) =>
      if EndsClock(s, m.1) then Some(ClockPart(hour, m.0, 0, m.1))
      else
        match LimitedAfter(s, m.1, extended, ':', 0, 59)
        case None => None
        case Some(sec) => if EndsClock(s, sec.1) then Some(ClockPart(hour, m.0, sec.0, sec.1)) else None
  }

  /** The offset of the zone. Its minutes may be missing, and need not be below sixty. */
  function ReadZone(s: string, i: nat, extended: bool): Option<int> {
    if Peek(s, i) == 'Z' then (if Ends(s, i + 1) then Some(0) else None)
    else
      match Limited(s, i + 1, 0, 13)
      case None => None
      case Some(h) =>
        var sign := if Peek(s, i) == '+' then 1 else -1;
        if Ends(s, i + 3) then Some(sign * h * 3600)
        else
          match LimitedAfter(s, i + 3, extended, ':', 0, 99)
          case None => None
          case Some(m) => if Ends(s, m.1) then Some(sign * (h * 3600 + m.0 * 60)) else None
  }

  function Build(d: Date, h: int, m: int, s: int, offset: int, isutc: bool): Outcome {
    if !Valid(d) then InvalidDate else Time(Seconds(LocalTime(d, h, m, s)) - offset, isutc)
  }

  function Parse(s: string): Outcome {
    match ReadDate(s)
    case None => NotATime
    case Some(d) => if Ends(s, d.next) then Build(d.date, 0, 0, 0, 0, false) else ParseClock(s, d)
  }

  function ParseClock(s: string, d: DatePart): Outcome {
    match ReadClock(s, d.next, d.extended)
    case None => NotATime
    case Some(c) =>
      if Ends(s, c.next) then Build(d.date, c.hour, c.minute, c.second, 0, false)
      else
        match ReadZone(s, c.next, d.extended)
        case None => NotATime
        case Some(offset) => Build(d.date, c.hour, c.minute, c.second, offset, true)
  }

  // ---------------------------------------------------------------- reading back what was written

  lemma TwoAt(s: string, i: nat, n: int)
    requires 0 <= n < 100 && At(s, i, i + 2, Two(n))
    ensures Number(s, i, 2) == Some(n)
    ensures IsDigit(Peek(s, i))
  {
    AtIsSlice(s, i, i + 2, Two(n));
    assert ValueOf(s, i, i + 1) == ValueOf(s, i, i) * 10 + Digit(s[i]);
    assert ValueOf(s, i, i + 2) == ValueOf(s, i, i + 1) * 10 + Digit(s[i + 1]);
  }

  lemma YearAt(s: string, y: int)
    requires 0 <= y <= 9999 && At(s, 0, 4, YearText(y))
    ensures Number(s, 0, 4) == Some(y)
  {
    Split(s, 0, 4, Two(y / 100), Two(y % 100));
    TwoAt(s, 0, y / 100);
    TwoAt(s, 2, y % 100);
    assert ValueOf(s, 0, 2) == y / 100;
    assert ValueOf(s, 2, 4) == y % 100;
    assert ValueOf(s, 0, 3) == ValueOf(s, 0, 2) * 10 + Digit(s[2]);
    assert ValueOf(s, 0, 4) == ValueOf(s, 0, 3) * 10 + Digit(s[3]);
    assert ValueOf(s, 2, 3) == Digit(s[2]);
    assert ValueOf(s, 2, 4) == ValueOf(s, 2, 3) * 10 + Digit(s[3]);
  }

  /** The length of a separator. */
  function Gap(extended: bool): nat {
    if extended then 1 else 0
  }

  /** A separator and a number stand at `i`, and text follows. */
  lemma NextTwoAt(s: string, i: nat, j: nat, extended: bool, c: char, n: int, rest: string, low: int, high: int)
    requires At(s, i, j, Separator(extended, c) + (Two(n) + rest)) && 0 <= n < 100 && low <= n <= high
    ensures var k := i + Gap(extended) + 2;
            LimitedAfter(s, i, extended, c, low, high) == Some((n, k)) && At(s, k, j, rest)
  {
    var k := i + Gap(extended);
    Split(s, i, j, Separator(extended, c), Two(n) + rest);
    Split(s, k, j, Two(n), rest);
    TwoAt(s, k, n);
    if extended {
      FirstChar(s, i, k, [c]);
    }
  }

  lemma DateAt(s: string, d: Date, extended: bool)
    requires Valid(d) && 0 <= d.year <= 9999 && !Ends(s, 8 + 2 * Gap(extended))
    requires At(s, 0, 8 + 2 * Gap(extended), DateText(d, extended))
    ensures ReadDate(s) == if 1582 <= d.year <= 5000 then Some(DatePart(d, 8 + 2 * Gap(extended), extended)) else None
  {
    var j := 8 + 2 * Gap(extended);
    var days := Separator(extended, '-') + Two(d.day);
    Split(s, 0, j, YearText(d.year), Separator(extended, '-') + (Two(d.month) + days));
    YearAt(s, d.year);
    FormAt(s, 4, j, extended, d.month, days);
    if 1582 <= d.year <= 5000 {
      MonthAndDayAt(s, d, extended);
    }
  }

  /** The character after the year tells the form. */
  lemma FormAt(s: string, i: nat, j: nat, extended: bool, n: int, rest: string)
    requires 0 <= n < 100 && At(s, i, j, Separator(extended, '-') + (Two(n) + rest))
    ensures Peek(s, i) == '-' <==> extended
  {
    if extended {
      FirstChar(s, i, j, ['-'] + (Two(n) + rest));
    } else {
      assert Separator(extended, '-') + (Two(n) + rest) == Two(n) + rest;
      FirstChar(s, i, j, Two(n) + rest);
    }
  }

  lemma MonthAndDayAt(s: string, d: Date, extended: bool)
    requires Valid(d) && !Ends(s, 8 + 2 * Gap(extended))
    requires At(s, 4, 8 + 2 * Gap(extended),
                Separator(extended, '-') + (Two(d.month) + (Separator(extended, '-') + Two(d.day))))
    ensures ReadMonthAndDay(s, d.year, extended) == Some(DatePart(d, 8 + 2 * Gap(extended), extended))
  {
    var j, k := 8 + 2 * Gap(extended), 6 + Gap(extended);
    var days := Separator(extended, '-') + Two(d.day);
    NextTwoAt(s, 4, j, extended, '-', d.month, days, 1, 12);
    NotEnd(s, k, j, extended, '-', d.day);
    assert Two(d.day) + "" == Two(d.day);
    NextTwoAt(s, k, j, extended, '-', d.day, "", 1, 31);
  }

  /** Where a separator or a digit stands, the text does not end, and no zone starts unless the
      separator is a dash. */
  lemma NotEnd(s: string, i: nat, j: nat, extended: bool, c: char, n: int)
    requires 0 <= n < 100 && (c == '-' || c == ':') && At(s, i, j, Separator(extended, c) + Two(n))
    ensures !Ends(s, i) && (c == ':' ==> !EndsClock(s, i))
  {
    var p := Separator(extended, c) + Two(n);
    FirstChar(s, i, j, p);
    assert !extended ==> p == Two(n);
  }

  lemma ClockAt(s: string, i: nat, t: LocalTime, extended: bool)
    requires ValidTime(t) && StartsZone(s, i + 7 + 2 * Gap(extended))
    requires At(s, i, i + 7 + 2 * Gap(extended), "T" + ClockText(t, extended))
    ensures ReadClock(s, i, extended) == Some(ClockPart(t.hour, t.minute, t.second, i + 7 + 2 * Gap(extended)))
  {
    var j := i + 7 + 2 * Gap(extended);
    var minutes := Separator(extended, ':') + (Two(t.minute) + (Separator(extended, ':') + Two(t.second)));
    SplitItem(s, i, j, 'T', Two(t.hour), minutes);
    TwoAt(s, i + 1, t.hour);
    NotEndLonger(s, i + 3, j, extended, t.minute, Separator(extended, ':') + Two(t.second));
    MinutesAt(s, i + 3, t, extended);
  }

  lemma NotEndLonger(s: string, i: nat, j: nat, extended: bool, n: int, rest: string)
    requires 0 <= n < 100 && At(s, i, j, Separator(extended, ':') + (Two(n) + rest))
    ensures !EndsClock(s, i)
  {
    var p := Separator(extended, ':') + (Two(n) + rest);
    FirstChar(s, i, j, p);
    assert !extended ==> p == Two(n) + rest;
  }

  lemma MinutesAt(s: string, i: nat, t: LocalTime, extended: bool)
    requires ValidTime(t) && StartsZone(s, i + 4 + 2 * Gap(extended))
    requires At(s, i, i + 4 + 2 * Gap(extended),
                Separator(extended, ':') + (Two(t.minute) + (Separator(extended, ':') + Two(t.second))))
    ensures ReadMinutes(s, i, extended, t.hour)
         == Some(ClockPart(t.hour, t.minute, t.second, i + 4 + 2 * Gap(extended)))
  {
    var j, k := i + 4 + 2 * Gap(extended), i + 2 + Gap(extended);
    var seconds := Separator(extended, ':') + Two(t.second);
    NextTwoAt(s, i, j, extended, ':', t.minute, seconds, 0, 59);
    NotEnd(s, k, j, extended, ':', t.second);
    assert Two(t.second) + "" == Two(t.second);
    NextTwoAt(s, k, j, extended, ':', t.second, "", 0, 59);
  }

  /** The offset that is written: without its seconds. */
  function Truncated(offset: int): int {
    if offset < 0 then -(-offset / 60 * 60) else offset / 60 * 60
  }

  lemma OffsetParts(a: nat)
    requires a < 360000
    ensures a / 3600 < 100 && a % 3600 / 60 < 60 && a / 3600 * 3600 + a % 3600 / 60 * 60 == a / 60 * 60
    ensures a / 3600 <= 13 <==> a < 14 * 3600
  {
  }

  lemma ZoneAt(s: string, i: nat, offset: int, extended: bool)
    requires -360000 < offset < 360000 && At(s, i, |s|, ZoneText(offset, extended))
    ensures StartsZone(s, i) && !Ends(s, i)
    ensures ReadZone(s, i, extended) == if Abs(offset) < 14 * 3600 then Some(Truncated(offset)) else None
  {
    if offset == 0 {
      FirstChar(s, i, |s|, "Z");
    } else {
      OffsetParts(Abs(offset));
      ShiftAt(s, i, if offset < 0 then '-' else '+', Abs(offset) / 3600, Abs(offset) % 3600 / 60, extended);
    }
  }

  /** A sign, hours and minutes up to the end. */
  lemma ShiftAt(s: string, i: nat, sign: char, h: nat, m: nat, extended: bool)
    requires h < 100 && m < 60 && (sign == '-' || sign == '+')
    requires At(s, i, |s|, [sign] + (Two(h) + (Separator(extended, ':') + Two(m))))
    ensures StartsZone(s, i) && !Ends(s, i) && Peek(s, i) == sign
    ensures ReadZone(s, i, extended)
         == if h <= 13 then Some((if sign == '+' then 1 else -1) * (h * 3600 + m * 60)) else None
  {
    SplitItem(s, i, |s|, sign, Two(h), Separator(extended, ':') + Two(m));
    TwoAt(s, i + 1, h);
    NotEnd(s, i + 3, |s|, extended, ':', m);
    assert Two(m) + "" == Two(m);
    NextTwoAt(s, i + 3, |s|, extended, ':', m, "", 0, 99);
  }

  /** What the parser makes of any printed time with a year of four digits. */
  lemma ParseOfText(t: LocalDateTime, extended: bool)
    requires ValidTime(t.local) && 0 <= t.local.date.year <= 9999 && -360000 < t.offset < 360000
    ensures Parse(IsoText(t, extended))
         == if 1582 <= t.local.date.year <= 5000 && Abs(t.offset) < 14 * 3600 then
              Time(Seconds(t.local) - Truncated(t.offset), true)
            else NotATime
  {
    var s := IsoText(t, extended);
    var j := 8 + 2 * Gap(extended);
    var k := j + 7 + 2 * Gap(extended);
    PartsOfText(t, extended);
    FirstChar(s, j, k, "T" + ClockText(t.local, extended));
    ZoneAt(s, k, t.offset, extended);
    DateAt(s, t.local.date, extended);
    ClockAt(s, j, t.local, extended);
  }

  lemma PartsOfText(t: LocalDateTime, extended: bool)
    ensures var s, j := IsoText(t, extended), 8 + 2 * Gap(extended);
            var k := j + 7 + 2 * Gap(extended);
            && At(s, 0, j, DateText(t.local.date, extended))
            && At(s, j, k, "T" + ClockText(t.local, extended))
            && At(s, k, |s|, ZoneText(t.offset, extended))
  {
    var s := IsoText(t, extended);
    assert s[0..|s|] == s;
    Split(s, 0, |s|, TimeText(t.local, extended), ZoneText(t.offset, extended));
    Split(s, 0, |TimeText(t.local, extended)|, DateText(t.local.date, extended), "T" + ClockText(t.local, extended));
  }

  /** A printed time is read back exactly when its local year is from 1582 to 5000 and its offset is in
      whole minutes and below fourteen hours. */
  lemma RoundTripIff(t: LocalDateTime, extended: bool)
    requires ValidTime(t.local) && 0 <= t.local.date.year <= 9999 && -360000 < t.offset < 360000
    ensures Parse(IsoText(t, extended)) == Time(Utc(t), true)
        <==> 1582 <= t.local.date.year <= 5000 && Abs(t.offset) < 14 * 3600 && t.offset % 60 == 0
  {
    ParseOfText(t, extended);
    RightIff(Parse(IsoText(t, extended)), Seconds(t.local), t.offset, t.local.date.year);
  }

  lemma RightIff(r: Outcome, local: int, offset: int, year: int)
    requires r == if 1582 <= year <= 5000 && Abs(offset) < 14 * 3600 then Time(local - Truncated(offset), true)
                  else NotATime
    ensures r == Time(local - offset, true) <==> 1582 <= year <= 5000 && Abs(offset) < 14 * 3600 && offset % 60 == 0
  {
  }
}
