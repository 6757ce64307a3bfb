/**
 The language of ISO 8601 times that the parser accepts, and what its texts mean. A text ends at the
 first zero character, or at the end of the string.
 */
module IsoLanguage {
  import opened Civil
  import opened IsoFormat
  import opened Text
  import opened Wrappers

  datatype Zone = NoZone | Zulu | Shift(ahead: bool, hours: int, minutes: Option<int>)

  /** A time of day, with or without the T in front of it. */
  datatype Clock = Clock(marked: bool, hour: int, minute: Option<int>, second: Option<int>, zone: Zone)

  datatype Form = Form(extended: bool, year: int, month: int, day: Option<int>, clock: Option<Clock>)

  // ---------------------------------------------------------------- the language

  predicate Part(n: Option<int>, low: int, high: int) {
    n.Some? ==> low <= n.value <= high
  }

  /** The minutes of a shift may exceed fifty-nine. */
  predicate ZoneOk(z: Zone) {
    z.Shift? ==> 0 <= z.hours <= 13 && Part(z.minutes, 0, 99)
  }

  predicate ClockOk(c: Clock) {
    && 0 <= c.hour <= 23 && Part(c.minute, 0, 59) && Part(c.second, 0, 59)
    && (c.second.Some? ==> c.minute.Some?)
    && ZoneOk(c.zone)
  }

  /** The day may be missing in the extended form, but then nothing follows. */
  predicate FormOk(f: Form) {
    && 1582 <= f.year <= 5000 && 1 <= f.month <= 12 && Part(f.day, 1, 31)
    && (f.day.None? ==> f.extended && f.clock.None?)
    && (f.clock.Some? ==> ClockOk(f.clock.value))
  }

  /** A number of two digits behind its separator, if it is there, and the text after it. */
  function PartText(n: Option<int>, extended: bool, c: char, rest: string): string {
    if n.None? then rest else Separator(extended, c) + (Two(n.value) + rest)
  }

  function ZoneFormText(z: Zone, extended: bool): string {
    match z
    case NoZone => ""
    case Zulu => "Z"
    case Shift(ahead, h, m) => [if ahead then '+' else '-'] + (Two(h) + PartText(m, extended, ':', ""))
  }

  function ClockFormText(c: Clock, extended: bool): string {
    (if c.marked then "T" else "") + (Two(c.hour) + MinuteText(c, extended))
  }

  function MinuteText(c: Clock, extended: bool): string {
    if c.minute.None? then ZoneFormText(c.zone, extended)
    else Separator(extended, ':') + (Two(c.minute.value) + SecondText(c, extended))
  }

  function SecondText(c: Clock, extended: bool): string {
    PartText(c.second, extended, ':', ZoneFormText(c.zone, extended))
  }

  function DayText(f: Form): string {
    PartText(f.day, f.extended, '-', if f.clock.None? then "" else ClockFormText(f.clock.value, f.extended))
  }

  function FormText(f: Form): string {
    YearText(f.year) + (Separator(f.extended, '-') + (Two(f.month) + DayText(f)))
  }

  /** The string shows this text, and the text ends there. */
  predicate Shows(s: string, f: Form) {
    At(s, 0, |FormText(f)|, FormText(f)) && Ends(s, |FormText(f)|)
  }

  // ---------------------------------------------------------------- the meaning

  function Default(n: Option<int>, d: int): int {
    if n.Some? then n.value else d
  }

  function OffsetOf(z: Zone): int {
    if !z.Shift? then 0
    else
      var size := z.hours * 3600 + Default(z.minutes, 0) * 60;
      if z.ahead then size else -size
  }

  function DateOfForm(f: Form): Date {
    Date(f.year, f.month, Default(f.day, 1))
  }

  /** What is missing is as early as possible. Only a time with a zone is one of UTC. */
  function Meaning(f: Form): Outcome {
    if f.clock.None? then Build(DateOfForm(f), 0, 0, 0, 0, false)
    else
      var c := f.clock.value;
      Build(DateOfForm(f), c.hour, Default(c.minute, 0), Default(c.second, 0), OffsetOf(c.zone), !c.zone.NoZone?)
  }

  // ---------------------------------------------------------------- texts of the language are accepted

  lemma NothingAt(s: string, i: nat, j: nat)
    requires At(s, i, j, "")
    ensures i == j
  {
    assert |s[i..j]| == 0;
  }

  /** Where the text of a zone stands, the clock ends; and unless there is none, it is read. */
  lemma ZoneFormAt(s: string, i: nat, j: nat, z: Zone, extended: bool)
    requires ZoneOk(z) && At(s, i, j, ZoneFormText(z, extended)) && Ends(s, j)
    ensures EndsClock(s, i) && (Ends(s, i) <==> z.NoZone?)
    ensures !z.NoZone? ==> ReadZone(s, i, extended) == Some(OffsetOf(z))
  {
    match z {
      case NoZone => NothingAt(s, i, j);
      case Zulu =>
        FirstChar(s, i, j, "Z");
        assert |s[i..j]| == 1;
      case Shift(ahead, h, m) => ShiftFormAt(s, i, j, z, extended);
    }
  }

  lemma ShiftFormAt(s: string, i: nat, j: nat, z: Zone, extended: bool)
    requires z.Shift? && ZoneOk(z) && At(s, i, j, ZoneFormText(z, extended)) && Ends(s, j)
    ensures StartsZone(s, i) && !Ends(s, i) && ReadZone(s, i, extended) == Some(OffsetOf(z))
  {
    SplitItem(s, i, j, if z.ahead then '+' else '-', Two(z.hours), PartText(z.minutes, extended, ':', ""));
    TwoAt(s, i + 1, z.hours);
    if z.minutes.None? {
      NothingAt(s, i + 3, j);
    } else {
      NextTwoAt(s, i + 3, j, extended, ':', z.minutes.value, "", 0, 99);
      NothingAt(s, i + 5 + Gap(extended), j);
      NotEndLonger(s, i + 3, j, extended, z.minutes.value, "");
    }
  }

  /** Reading from behind the hours: the rest of the clock, up to where the zone stands. */
  lemma MinuteFormAt(s: string, i: nat, j: nat, c: Clock, extended: bool) returns (k: nat)
    requires ClockOk(c) && c.minute.Some? && At(s, i, j, MinuteText(c, extended)) && Ends(s, j)
    ensures !EndsClock(s, i) && At(s, k, j, ZoneFormText(c.zone, extended))
    ensures ReadMinutes(s, i, extended, c.hour) == Some(ClockPart(c.hour, c.minute.value, Default(c.second, 0), k))
  {
    NextTwoAt(s, i, j, extended, ':', c.minute.value, SecondText(c, extended), 0, 59);
    NotEndLonger(s, i, j, extended, c.minute.value, SecondText(c, extended));
    k := i + Gap(extended) + 2;
    if c.second.Some? {
      var zone := ZoneFormText(c.zone, extended);
      NextTwoAt(s, k, j, extended, ':', c.second.value, zone, 0, 59);
      NotEndLonger(s, k, j, extended, c.second.value, zone);
      k := k + Gap(extended) + 2;
    }
    ZoneFormAt(s, k, j, c.zone, extended);
  }

  lemma ClockFormAt(s: string, i: nat, j: nat, c: Clock, extended: bool) returns (k: nat)
    requires ClockOk(c) && At(s, i, j, ClockFormText(c, extended)) && Ends(s, j)
    ensures !Ends(s, i) && At(s, k, j, ZoneFormText(c.zone, extended))
    ensures ReadClock(s, i, extended) == Some(ClockPart(c.hour, Default(c.minute, 0), Default(c.second, 0), k))
  {
    var mark := if c.marked then "T" else "";
    var h := i + |mark|;
    Split(s, i, j, mark, Two(c.hour) + MinuteText(c, extended));
    Split(s, h, j, Two(c.hour), MinuteText(c, extended));
    TwoAt(s, h, c.hour);
    if c.marked {
      FirstChar(s, i, h, mark);
    }
    k := h + 2;
    if c.minute.Some? {
      k := MinuteFormAt(s, k, j, c, extended);
    } else {
      ZoneFormAt(s, k, j, c.zone, extended);
    }
  }

  /** The date of the form is read, up to where the clock stands or the text ends. */
  lemma DayFormAt(s: string, i: nat, j: nat, f: Form) returns (k: nat)
    requires FormOk(f) && Ends(s, j)
    requires i == 4 && At(s, i, j, Separator(f.extended, '-') + (Two(f.month) + DayText(f)))
    ensures At(s, k, j, if f.clock.None? then "" else ClockFormText(f.clock.value, f.extended))
    ensures ReadMonthAndDay(s, f.year, f.extended) == Some(DatePart(DateOfForm(f), k, f.extended))
  {
    NextTwoAt(s, i, j, f.extended, '-', f.month, DayText(f), 1, 12);
    k := i + Gap(f.extended) + 2;
    if f.day.None? {
      NothingAt(s, k, j);
    } else {
      var clock := if f.clock.None? then "" else ClockFormText(f.clock.value, f.extended);
      NextTwoAt(s, k, j, f.extended, '-', f.day.value, clock, 1, 31);
      PartStarts(s, k, j, f.extended, '-', f.day.value, clock);
      k := k + Gap(f.extended) + 2;
    }
  }

  lemma PartStarts(s: string, i: nat, j: nat, extended: bool, c: char, n: int, rest: string)
    requires 0 <= n < 100 && c != 0 as char && At(s, i, j, Separator(extended, c) + (Two(n) + rest))
    ensures !Ends(s, i)
  {
    var p := Separator(extended, c) + (Two(n) + rest);
    FirstChar(s, i, j, p);
    assert !extended ==> p == Two(n) + rest;
  }

  lemma DateFormAt(s: string, j: nat, f: Form) returns (k: nat)
    requires FormOk(f) && At(s, 0, j, FormText(f)) && Ends(s, j)
    ensures At(s, k, j, if f.clock.None? then "" else ClockFormText(f.clock.value, f.extended))
    ensures ReadDate(s) == Some(DatePart(DateOfForm(f), k, f.extended))
  {
    var days := Separator(f.extended, '-') + (Two(f.month) + DayText(f));
    Split(s, 0, j, YearText(f.year), days);
    YearAt(s, f.year);
    FormAt(s, 4, j, f.extended, f.month, DayText(f));
    k := DayFormAt(s, 4, j, f);
  }

  /** What the parser makes of a text of the language is what it means. */
  lemma ParseOfForm(s: string, f: Form)
    requires FormOk(f) && Shows(s, f)
    ensures Parse(s) == Meaning(f)
  {
    var j := |FormText(f)|;
    var k := DateFormAt(s, j, f);
    if f.clock.None? {
      NothingAt(s, k, j);
    } else {
      var c := f.clock.value;
      var l := ClockFormAt(s, k, j, c, f.extended);
      ZoneFormAt(s, l, j, c.zone, f.extended);
    }
  }

  // ---------------------------------------------------------------- what is accepted belongs to the language

  lemma Join(s: string, i: nat, k: nat, j: nat, p: string, q: string)
    requires At(s, i, k, p) && At(s, k, j, q)
    ensures At(s, i, j, p + q)
  {
    assert s[i..j] == s[i..k] + s[k..j];
  }

  lemma EmptyAt(s: string, i: nat)
    requires i <= |s|
    ensures At(s, i, i, "")
  {
    assert s[i..i] == "";
  }

  /** Two digits are the text of their number. */
  lemma TwoShown(s: string, i: nat, n: int)
    requires Number(s, i, 2) == Some(n)
    ensures 0 <= n < 100 && At(s, i, i + 2, Two(n))
  {
    assert ValueOf(s, i, i) == 0;
    assert ValueOf(s, i, i + 1) == Digit(s[i]);
    assert ValueOf(s, i, i + 2) == Digit(s[i]) * 10 + Digit(s[i + 1]);
    assert IsDigit(s[i]) && IsDigit(s[i + 1]);
    assert s[i..i + 2] == [s[i], s[i + 1]];
    DigitsShown(s[i], s[i + 1], n);
  }

  lemma DigitsShown(a: char, b: char, n: int)
    requires IsDigit(a) && IsDigit(b) && n == Digit(a) * 10 + Digit(b)
    ensures 0 <= n < 100 && [a, b] == Two(n)
  {
    assert n / 10 == Digit(a) && n % 10 == Digit(b);
  }

  lemma YearShown(s: string, y: int)
    requires Number(s, 0, 4) == Some(y)
    ensures 0 <= y <= 9999 && At(s, 0, 4, YearText(y))
  {
    var a, b := ValueOf(s, 0, 2), ValueOf(s, 2, 4);
    assert Number(s, 0, 2) == Some(a) && Number(s, 2, 2) == Some(b);
    TwoShown(s, 0, a);
    TwoShown(s, 2, b);
    YearValue(s);
    assert y / 100 == a && y % 100 == b;
    Join(s, 0, 2, 4, Two(a), Two(b));
  }

  lemma YearValue(s: string)
    requires 4 <= |s|
    ensures ValueOf(s, 0, 4) == ValueOf(s, 0, 2) * 100 + ValueOf(s, 2, 4)
  {
    assert ValueOf(s, 0, 4) == ValueOf(s, 0, 3) * 10 + Digit(s[3]);
    assert ValueOf(s, 0, 3) == ValueOf(s, 0, 2) * 10 + Digit(s[2]);
    assert ValueOf(s, 2, 4) == ValueOf(s, 2, 3) * 10 + Digit(s[3]);
    assert ValueOf(s, 2, 3) == ValueOf(s, 2, 2) * 10 + Digit(s[2]);
  }

  /** A number that is read behind its separator stands there, with any text that follows. */
  lemma PartShown(s: string, i: nat, j: nat, extended: bool, c: char, low: int, high: int, rest: string)
    requires var r := LimitedAfter(s, i, extended, c, low, high); r.Some? && At(s, r.value.1, j, rest)
    requires i <= |s| && c != 0 as char
    ensures var n := LimitedAfter(s, i, extended, c, low, high).value.0;
            low <= n <= high && At(s, i, j, Separator(extended, c) + (Two(n) + rest))
  {
    var (n, k) := LimitedAfter(s, i, extended, c, low, high).value;
    var d := i + Gap(extended);
    TwoShown(s, d, n);
    Join(s, d, k, j, Two(n), rest);
    assert s[i..d] == Separator(extended, c);
    Join(s, i, d, j, Separator(extended, c), Two(n) + rest);
  }

  lemma ZoneShown(s: string, i: nat, extended: bool) returns (z: Zone, j: nat)
    requires i < |s| && StartsZone(s, i) && ReadZone(s, i, extended).Some?
    ensures ZoneOk(z) && !z.NoZone? && ReadZone(s, i, extended) == Some(OffsetOf(z))
    ensures At(s, i, j, ZoneFormText(z, extended)) && Ends(s, j)
  {
    if Peek(s, i) == 'Z' {
      z, j := Zulu, i + 1;
      assert s[i..i + 1] == "Z";
    } else {
      z, j := ShiftShown(s, i, extended);
    }
  }

  lemma ShiftShown(s: string, i: nat, extended: bool) returns (z: Zone, j: nat)
    requires i < |s| && (s[i] == '+' || s[i] == '-') && ReadZone(s, i, extended).Some?
    ensures ZoneOk(z) && z.Shift? && ReadZone(s, i, extended) == Some(OffsetOf(z))
    ensures At(s, i, j, ZoneFormText(z, extended)) && Ends(s, j)
  {
    var h := Limited(s, i + 1, 0, 13).value;
    TwoShown(s, i + 1, h);
    assert s[i..i + 1] == [if s[i] == '+' then '+' else '-'];
    if Ends(s, i + 3) {
      z, j := Shift(s[i] == '+', h, None), i + 3;
      EmptyAt(s, j);
    } else {
      var r := LimitedAfter(s, i + 3, extended, ':', 0, 99).value;
      z, j := Shift(s[i] == '+', h, Some(r.0)), r.1;
      EmptyAt(s, j);
      PartShown(s, i + 3, j, extended, ':', 0, 99, "");
    }
    Join(s, i + 1, i + 3, j, Two(h), PartText(z.minutes, extended, ':', ""));
    Join(s, i, i + 1, j, [if z.ahead then '+' else '-'], Two(h) + PartText(z.minutes, extended, ':', ""));
  }

  /** The zone behind a clock, or the end of the text. */
  lemma ZoneBehind(s: string, i: nat, extended: bool) returns (z: Zone, j: nat)
    requires i <= |s| && EndsClock(s, i) && (Ends(s, i) || ReadZone(s, i, extended).Some?)
    ensures ZoneOk(z) && (z.NoZone? <==> Ends(s, i)) && At(s, i, j, ZoneFormText(z, extended)) && Ends(s, j)
    ensures !z.NoZone? ==> ReadZone(s, i, extended) == Some(OffsetOf(z))
  {
    if Ends(s, i) {
      z, j := NoZone, i;
      EmptyAt(s, i);
    } else {
      z, j := ZoneShown(s, i, extended);
    }
  }

  /** The clock read from `i` on, and the zone behind it. */
  ghost predicate ClockStands(s: string, i: nat, j: nat, extended: bool, p: ClockPart, c: Clock) {
    && ClockOk(c) && At(s, i, j, ClockFormText(c, extended)) && Ends(s, j)
    && p.hour == c.hour && p.minute == Default(c.minute, 0) && p.second == Default(c.second, 0)
    && (c.zone.NoZone? <==> Ends(s, p.next))
    && (!c.zone.NoZone? ==> ReadZone(s, p.next, extended) == Some(OffsetOf(c.zone)))
  }

  lemma MinutesShown(s: string, i: nat, extended: bool, hour: int) returns (c: Clock, j: nat)
    requires i <= |s| && 0 <= hour <= 23 && ReadMinutes(s, i, extended, hour).Some?
    requires var k := ReadMinutes(s, i, extended, hour).value.next; Ends(s, k) || ReadZone(s, k, extended).Some?
    ensures var p := ReadMinutes(s, i, extended, hour).value;
            && ClockOk(c) && c.hour == hour && c.minute == Some(p.minute) && p.second == Default(c.second, 0)
            && p.hour == hour && (c.zone.NoZone? <==> Ends(s, p.next))
            && (!c.zone.NoZone? ==> ReadZone(s, p.next, extended) == Some(OffsetOf(c.zone)))
    ensures At(s, i, j, MinuteText(c, extended)) && Ends(s, j)
  {
    var p := ReadMinutes(s, i, extended, hour).value;
    var (m, k) := LimitedAfter(s, i, extended, ':', 0, 59).value;
    var z;
    z, j := ZoneBehind(s, p.next, extended);
    var second := if EndsClock(s, k) then None else Some(p.second);
    c := Clock(false, hour, Some(m), second, z);
    if second.Some? {
      PartShown(s, k, j, extended, ':', 0, 59, ZoneFormText(z, extended));
    }
    PartShown(s, i, j, extended, ':', 0, 59, SecondText(c, extended));
  }

  lemma BehindHourShown(s: string, i: nat, extended: bool, marked: bool, hour: int) returns (c: Clock, j: nat)
    requires i <= |s| && 0 <= hour <= 23
    requires !EndsClock(s, i) ==> ReadMinutes(s, i, extended, hour).Some?
    requires var k := if EndsClock(s, i) then i else ReadMinutes(s, i, extended, hour).value.next;
             Ends(s, k) || ReadZone(s, k, extended).Some?
    ensures var p := if EndsClock(s, i) then ClockPart(hour, 0, 0, i) else ReadMinutes(s, i, extended, hour).value;
            && ClockOk(c) && c.marked == marked && p.hour == hour == c.hour
            && p.minute == Default(c.minute, 0) && p.second == Default(c.second, 0)
            && (c.zone.NoZone? <==> Ends(s, p.next))
            && (!c.zone.NoZone? ==> ReadZone(s, p.next, extended) == Some(OffsetOf(c.zone)))
    ensures At(s, i, j, MinuteText(c, extended)) && Ends(s, j)
  {
    if EndsClock(s, i) {
      var z;
      z, j := ZoneBehind(s, i, extended);
      c := Clock(marked, hour, None, None, z);
    } else {
      var d;
      d, j := MinutesShown(s, i, extended, hour);
      c := d.(marked := marked);
      assert MinuteText(c, extended) == MinuteText(d, extended);
    }
  }

  lemma ClockShown(s: string, i: nat, extended: bool) returns (c: Clock, j: nat)
    requires i <= |s| && ReadClock(s, i, extended).Some?
    requires var k := ReadClock(s, i, extended).value.next; Ends(s, k) || ReadZone(s, k, extended).Some?
    ensures ClockStands(s, i, j, extended, ReadClock(s, i, extended).value, c)
  {
    var marked := Peek(s, i) == 'T';
    var mark := if marked then "T" else "";
    var h := i + |mark|;
    var hour := Limited(s, h, 0, 23).value;
    TwoShown(s, h, hour);
    c, j := BehindHourShown(s, h + 2, extended, marked, hour);
    assert s[i..h] == mark;
    JoinClock(s, i, h, j, c, extended);
  }

  lemma JoinClock(s: string, i: nat, h: nat, j: nat, c: Clock, extended: bool)
    requires At(s, i, h, if c.marked then "T" else "") && At(s, h, h + 2, Two(c.hour))
    requires At(s, h + 2, j, MinuteText(c, extended))
    ensures At(s, i, j, ClockFormText(c, extended))
  {
    Join(s, h, h + 2, j, Two(c.hour), MinuteText(c, extended));
    Join(s, i, h, j, if c.marked then "T" else "", Two(c.hour) + MinuteText(c, extended));
  }

  /** The date read, with any text behind it. */
  lemma DateShown(s: string, clock: Option<Clock>, j: nat) returns (f: Form)
    requires ReadDate(s).Some?
    requires var d := ReadDate(s).value;
             && At(s, d.next, j, if clock.None? then "" else ClockFormText(clock.value, d.extended))
             && (clock.None? <==> Ends(s, d.next))
    requires clock.Some? ==> ClockOk(clock.value)
    ensures FormOk(f) && f.extended == ReadDate(s).value.extended && f.clock == clock
    ensures DateOfForm(f) == ReadDate(s).value.date && At(s, 0, j, FormText(f))
  {
    var d := ReadDate(s).value;
    var year := Number(s, 0, 4).value;
    var (m, k) := LimitedAfter(s, 4, d.extended, '-', 1, 12).value;
    var rest := if clock.None? then "" else ClockFormText(clock.value, d.extended);
    var day := if Ends(s, k) then None else Some(d.date.day);
    f := Form(d.extended, year, m, day, clock);
    if day.Some? {
      PartShown(s, k, j, d.extended, '-', 1, 31, rest);
    }
    PartShown(s, 4, j, d.extended, '-', 1, 12, DayText(f));
    YearShown(s, year);
    Join(s, 0, 4, j, YearText(year), Separator(d.extended, '-') + (Two(m) + DayText(f)));
  }

  lemma FormOfParsed(s: string) returns (f: Form)
    requires Parse(s) != NotATime
    ensures FormOk(f) && Shows(s, f)
  {
    var d := ReadDate(s).value;
    var clock: Option<Clock>, j := None, d.next;
    if Ends(s, d.next) {
      EmptyAt(s, j);
    } else {
      var c;
      c, j := ClockShown(s, d.next, d.extended);
      clock := Some(c);
    }
    f := DateShown(s, clock, j);
    assert |s[0..j]| == j;
  }

  /** The parser accepts exactly the strings that show a text of the language, and gives its meaning. */
  lemma ParsesLanguage(s: string)
    ensures forall f :: FormOk(f) && Shows(s, f) ==> Parse(s) == Meaning(f)
    ensures Parse(s) == NotATime <==> forall f :: FormOk(f) ==> !Shows(s, f)
  {
    forall f | FormOk(f) && Shows(s, f) ensures Parse(s) == Meaning(f) {
      ParseOfForm(s, f);
    }
    if Parse(s) != NotATime {
      var f := FormOfParsed(s);
    }
  }
}
