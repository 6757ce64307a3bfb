/**
 Printing timestamps backwards into a buffer, and parsing them with an index that moves forward.
 */
module IsoTime {
  import opened Civil
  import opened Common
  import opened IsoFormat
  import opened IsoLanguage
  import opened Text
  import opened Wrappers

  // ---------------------------------------------------------------- the printers

  /** The pairs of digits of all numbers below a hundred, one after the other. */
  const Digits: seq<char> :=
    seq(200, i requires 0 <= i < 200 => if i % 2 == 0 then DigitOf(i / 20) else DigitOf(i / 2 % 10))

  lemma PairOfDigits(n: int)
    requires 0 <= n < 100
    ensures [Digits[2 * n], Digits[2 * n + 1]] == Two(n)
  {
  }

  /** Writes a character in front of what is already there. */
  method PutChar(buffer: array<char>, end: nat, c: char) returns (ptr: nat)
    requires 0 < end <= buffer.Length
    modifies buffer
    ensures ptr == end - 1 && buffer[ptr..] == [c] + old(buffer[end..])
  {
    ptr := end - 1;
    buffer[ptr] := c;
    assert buffer[ptr..] == [buffer[ptr]] + buffer[ptr + 1..];
  }

  /** Writes two digits in front of what is already there. */
  method PutTwo(buffer: array<char>, end: nat, n: nat) returns (ptr: nat)
    requires 2 <= end <= buffer.Length && n < 100
    modifies buffer
    ensures ptr == end - 2 && buffer[ptr..] == Two(n) + old(buffer[end..])
  {
    PairOfDigits(n);
    var index := n * 2;
    ptr := PutChar(buffer, end, Digits[index + 1]);
    ptr := PutChar(buffer, ptr, Digits[index]);
    assert [Digits[index]] + ([Digits[index + 1]] + old(buffer[end..])) == Two(n) + old(buffer[end..]);
  }

  method PutSeparator(buffer: array<char>, end: nat, extended: bool, c: char) returns (ptr: nat)
    requires 1 <= end <= buffer.Length
    modifies buffer
    ensures ptr == end - Gap(extended) && buffer[ptr..] == Separator(extended, c) + old(buffer[end..])
  {
    ptr := end;
    if extended {
      ptr := PutChar(buffer, end, c);
    } else {
      assert "" + old(buffer[end..]) == old(buffer[end..]);
    }
  }

  method PutClock(buffer: array<char>, end: nat, t: LocalTime, extended: bool) returns (ptr: nat)
    requires ValidTime(t) && 6 + 2 * Gap(extended) <= end <= buffer.Length
    modifies buffer
    ensures ptr == end - 6 - 2 * Gap(extended) && buffer[ptr..] == ClockText(t, extended) + old(buffer[end..])
  {
    ghost var rest, sep := buffer[end..], Separator(extended, ':');
    ptr := PutTwo(buffer, end, t.second);
    ptr := PutSeparator(buffer, ptr, extended, ':');
    ptr := PutTwo(buffer, ptr, t.minute);
    ptr := PutSeparator(buffer, ptr, extended, ':');
    ptr := PutTwo(buffer, ptr, t.hour);
    FivePieces(Two(t.hour), sep, Two(t.minute), sep, Two(t.second), rest);
  }

  method PutDate(buffer: array<char>, end: nat, d: Date, extended: bool) returns (ptr: nat)
    requires Valid(d) && 0 <= d.year <= 9999 && 8 + 2 * Gap(extended) <= end <= buffer.Length
    modifies buffer
    ensures ptr == end - 8 - 2 * Gap(extended) && buffer[ptr..] == DateText(d, extended) + old(buffer[end..])
  {
    ghost var rest, sep := buffer[end..], Separator(extended, '-');
    ptr := PutTwo(buffer, end, d.day);
    ptr := PutSeparator(buffer, ptr, extended, '-');
    ptr := PutTwo(buffer, ptr, d.month);
    ptr := PutSeparator(buffer, ptr, extended, '-');
    ghost var tail := buffer[ptr..];
    FivePieces("", sep, Two(d.month), sep, Two(d.day), rest);
    ptr := PutTwo(buffer, ptr, d.year % 100);
    ptr := PutTwo(buffer, ptr, d.year / 100);
    assert Two(d.year / 100) + (Two(d.year % 100) + tail) == YearText(d.year) + tail;
    YearInFront(YearText(d.year), sep + (Two(d.month) + (sep + Two(d.day))), rest, tail);
  }

  lemma FivePieces(a: string, b: string, c: string, d: string, e: string, rest: string)
    ensures a + (b + (c + (d + (e + rest)))) == a + (b + (c + (d + e))) + rest
  {
  }

  lemma YearInFront(year: string, days: string, rest: string, tail: string)
    requires "" + tail == "" + days + rest
    ensures year + tail == year + days + rest
  {
    assert "" + tail == tail && "" + days == days;
  }

  /** The basic and the extended form of a time without a zone. */
  method TimeString(t: LocalTime, extended: bool) returns (text: string)
    requires ValidTime(t) && 0 <= t.date.year <= 9999
    ensures text == TimeText(t, extended)
  {
    var length := if extended then 20 else 16;
    var buffer := new char[length];
    var ptr := PutChar(buffer, length, 0 as char);
    ghost var end := buffer[ptr..];
    assert |end| == 1;
    ptr := PutClock(buffer, ptr, t, extended);
    ptr := PutChar(buffer, ptr, 'T');
    ptr := PutDate(buffer, ptr, t.date, extended);
    assert ptr == 0;
    text := buffer[ptr..length - 1];
    assert buffer[..] == buffer[ptr..];
    WithoutEnd(DateText(t.date, extended), ClockText(t, extended), end, buffer[..]);
    assert buffer[..][..length - 1] == buffer[ptr..length - 1];
  }

  lemma WithoutEnd(date: string, clock: string, end: string, all: string)
    requires all == date + (['T'] + (clock + end)) && |end| == 1
    ensures all[..|all| - 1] == date + ("T" + clock)
  {
    assert all == date + ("T" + clock) + end;
  }

  method IsoString(t: LocalDateTime, extended: bool) returns (text: string)
    requires ValidTime(t.local) && 0 <= t.local.date.year <= 9999 && -360000 < t.offset < 360000
    ensures text == IsoText(t, extended)
  {
    text := TimeString(t.local, extended);
    if t.offset == 0 {
      return text + "Z";
    }
    var hours, minutes := Abs(t.offset) / 3600, Abs(t.offset) % 3600 / 60;
    var sign := if t.offset < 0 then '-' else '+';
    var zone := [sign] + (Two(hours) + (Separator(extended, ':') + Two(minutes)));
    text := text + zone;
  }

  // ---------------------------------------------------------------- the parser

  /** A number with exactly this many digits; a 16-bit value holds four. */
  method ParseUshort(s: string, i: nat, length: nat) returns (n: Option<int>)
    requires i <= |s| && length <= 4
    ensures n == Number(s, i, length)
  {
    var tmp := 0;
    for k := 0 to length
      invariant i + k <= |s| && DigitsFrom(s, i, i + k) && tmp == ValueOf(s, i, i + k)
    {
      var c := Peek(s, i + k);
      if !IsDigit(c) {
        assert i + length <= |s| ==> !IsDigit(s[i + k]);
        return None;
      }
      tmp := tmp * 10;
      tmp := tmp + Digit(c);
    }
    n := Some(tmp);
  }

  /** A separator if the form has them, and a number of two digits within the limits. */
  method ParseLimited(s: string, i: nat, extended: bool, c: char, low: int, high: int) returns (r: Option<(int, nat)>)
    requires i <= |s| && c != 0 as char
    ensures r == LimitedAfter(s, i, extended, c, low, high)
    ensures r.Some? ==> r.value.1 <= |s|
  {
    var j := i;
    if extended {
      if Peek(s, i) != c {
        return None;
      }
      j := i + 1;
    }
    var n := ParseUshort(s, j, 2);
    if n.None? || n.value < low || n.value > high {
      return None;
    }
    r := Some((n.value, j + 2));
  }

  /** Gives the meaning of a text of the language, and refuses every other string. */
  method TryParseIso(s: string) returns (r: Outcome)
    ensures r == Parse(s)
    ensures forall f :: FormOk(f) && Shows(s, f) ==> r == Meaning(f)
    ensures r == NotATime <==> forall f :: FormOk(f) ==> !Shows(s, f)
  {
    ParsesLanguage(s);
    r := ParseWhole(s);
  }

  method ParseWhole(s: string) returns (r: Outcome)
    ensures r == Parse(s)
  {
    var date := ParseDate(s);
    if date.None? {
      return NotATime;
    }
    var d := date.value;
    var hour, minute, second, offset, isutc := 0, 0, 0, 0, false;
    if !Ends(s, d.next) {
      var clock := ParseClockPart(s, d.next, d.extended);
      if clock.None? {
        return NotATime;
      }
      hour, minute, second := clock.value.hour, clock.value.minute, clock.value.second;
      if !Ends(s, clock.value.next) {
        isutc := true;
        var zone := ParseZone(s, clock.value.next, d.extended);
        if zone.None? {
          return NotATime;
        }
        offset := zone.value;
      }
    }
    if !Valid(d.date) {
      return InvalidDate;
    }
    r := Time(Seconds(LocalTime(d.date, hour, minute, second)) - offset, isutc);
  }

  method ParseDate(s: string) returns (r: Option<DatePart>)
    ensures r == ReadDate(s)
    ensures r.Some? ==> r.value.next <= |s|
  {
    var year := ParseUshort(s, 0, 4);
    if year.None? {
      return None;
    }
    if year.value < 1582 || year.value > 5000 {
      return None;
    }
    var extended := Peek(s, 4) == '-';
    var month := ParseLimited(s, 4, extended, '-', 1, 12);
    if month.None? {
      return None;
    }
    if Ends(s, month.value.1) {
      if !extended {
        return None;
      }
      return Some(DatePart(Date(year.value, month.value.0, 1), month.value.1, extended));
    }
    var day := ParseLimited(s, month.value.1, extended, '-', 1, 31);
    if day.None? {
      return None;
    }
    r := Some(DatePart(Date(year.value, month.value.0, day.value.0), day.value.1, extended));
  }

  method ParseClockPart(s: string, i: nat, extended: bool) returns (r: Option<ClockPart>)
    requires i <= |s|
    ensures r == ReadClock(s, i, extended)
    ensures r.Some? ==> r.value.next <= |s|
  {
    var j := i;
    if Peek(s, i) == 'T' {
      j := i + 1;
    }
    var hour := ParseUshort(s, j, 2);
    if hour.None? || hour.value < 0 || hour.value > 23 {
      return None;
    }
    j := j + 2;
    if EndsClock(s, j) {
      return Some(ClockPart(hour.value, 0, 0, j));
    }
    var minute := ParseLimited(s, j, extended, ':', 0, 59);
    if minute.None? {
      return None;
    }
    if EndsClock(s, minute.value.1) {
      return Some(ClockPart(hour.value, minute.value.0, 0, minute.value.1));
    }
    var second := ParseLimited(s, minute.value.1, extended, ':', 0, 59);
    if second.None? {
      return None;
    }
    if !EndsClock(s, second.value.1) {
      return None;
    }
    r := Some(ClockPart(hour.value, minute.value.0, second.value.0, second.value.1));
  }

  method ParseZone(s: string, i: nat, extended: bool) returns (r: Option<int>)
    requires i < |s|
    ensures r == ReadZone(s, i, extended)
  {
    var c := Peek(s, i);
    if c == 'Z' {
      if !Ends(s, i + 1) {
        return None;
      }
      return Some(0);
    }
    var positive := c == '+';
    var hours := ParseUshort(s, i + 1, 2);
    if hours.None? || hours.value < 0 || hours.value >= 14 {
      return None;
    }
    if Ends(s, i + 3) {
      return Some(if positive then hours.value * 3600 else -(hours.value * 3600));
    }
    var minutes := ParseLimited(s, i + 3, extended, ':', 0, 99);
    if minutes.None? || !Ends(s, minutes.value.1) {
      return None;
    }
    var shift := hours.value * 3600 + minutes.value.0 * 60;
    r := Some(if positive then shift else -shift);
  }

  /** Any time that the printer is meant for comes back as its UTC time. */
  method RoundTrip(t: LocalDateTime, extended: bool) returns (r: Outcome)
    requires ValidTime(t.local) && 1582 <= t.local.date.year <= 5000
    requires -14 * 3600 < t.offset < 14 * 3600 && t.offset % 60 == 0
    ensures r == Time(Utc(t), true)
  {
    var text := IsoString(t, extended);
    r := TryParseIso(text);
    RoundTripIff(t, extended);
  }
}
